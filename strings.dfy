/**
 * The slice of Python's `str` behaviour that the bot's helpers rely on:
 * `strip`, `splitlines`, `split` (with and without a separator and with a
 * `maxsplit`), `join`, `startswith`, `isdigit`, `int`, `lower`, `replace`
 * and integer formatting.  Strings are sequences of Unicode scalar values,
 * as Python's `str` is a sequence of code points.
 */
module Strings {
  import opened Wrappers

  // ---------------------------------------------------------------------
  // Character classes
  // ---------------------------------------------------------------------

  /** The characters for which Python's `str.isspace()` holds. */
  /** The characters Python's `str.isspace()` accepts. */
  const Whitespace: set<char> := {
    ' ', '\t', '\n', '\U{0B}', '\U{0C}', '\r', '\U{1C}', '\U{1D}', '\U{1E}', '\U{1F}',
    '\U{85}', '\U{A0}', '\U{1680}',
    '\U{2000}', '\U{2001}', '\U{2002}', '\U{2003}', '\U{2004}', '\U{2005}',
    '\U{2006}', '\U{2007}', '\U{2008}', '\U{2009}', '\U{200A}',
    '\U{2028}', '\U{2029}', '\U{202F}', '\U{205F}', '\U{3000}'
  }

  predicate IsSpace(c: char) {
    c in Whitespace
  }


  /** The line boundaries recognised by Python's `str.splitlines()`. */
  predicate IsLineBreak(c: char) {
    ('\n' <= c <= '\r') || ('\U{1C}' <= c <= '\U{1E}') ||
    c == '\U{85}' || c == '\U{2028}' || c == '\U{2029}'
  }

  /** Every line boundary is also white space. */
  lemma LineBreakIsSpace(c: char)
    requires IsLineBreak(c)
    ensures IsSpace(c)
  {
  }

  predicate NoLineBreak(s: string) {
    forall i :: 0 <= i < |s| ==> !IsLineBreak(s[i])
  }

  lemma NoLineBreakConcat(a: string, b: string)
    requires NoLineBreak(a) && NoLineBreak(b)
    ensures NoLineBreak(a + b)
  {
  }

  predicate IsAsciiDigit(c: char) {
    '0' <= c <= '9'
  }

  function DigitValue(c: char): (d: nat)
    requires IsAsciiDigit(c)
    ensures d < 10
  {
    (c - '0') as nat
  }

  function DigitChar(d: nat): (c: char)
    requires d < 10
    ensures IsAsciiDigit(c) && DigitValue(c) == d
  {
    ('0' as int + d) as char
  }

  // ---------------------------------------------------------------------
  // strip and startswith
  // ---------------------------------------------------------------------

  /** Python's `s.lstrip()`: drops the leading white space. */
  function StripLeft(s: string): (r: string)
    ensures |r| <= |s| && r == s[|s| - |r|..]
    ensures r == [] || !IsSpace(r[0])
    ensures forall i :: 0 <= i < |s| - |r| ==> IsSpace(s[i])
  {
    if s == [] || !IsSpace(s[0]) then s else StripLeft(s[1..])
  }

  /** Python's `s.rstrip()`: drops the trailing white space. */
  function StripRight(s: string): (r: string)
    ensures |r| <= |s| && r == s[..|r|]
    ensures r == [] || !IsSpace(r[|r| - 1])
    ensures forall i :: |r| <= i < |s| ==> IsSpace(s[i])
  {
    if s == [] || !IsSpace(s[|s| - 1]) then s else StripRight(s[..|s| - 1])
  }

  /** A string with no white space at either end. */
  predicate Stripped(s: string) {
    s == [] || (!IsSpace(s[0]) && !IsSpace(s[|s| - 1]))
  }

  /** Python's `s.strip()`. */
  function Strip(s: string): (r: string)
    ensures Stripped(r)
  {
    StripRight(StripLeft(s))
  }

  /** Strip leaves a string that is already stripped as it is. */
  lemma StripOfStripped(s: string)
    requires Stripped(s)
    ensures Strip(s) == s
  {
  }

  /** Python's `s.startswith(c)` for a one-character prefix. */
  predicate StartsWith(s: string, c: char) {
    |s| > 0 && s[0] == c
  }

  // ---------------------------------------------------------------------
  // split with a separator, join
  // ---------------------------------------------------------------------

  /** The index of the first `c` in `s`, or `|s|` when there is none. */
  function IndexOf(s: string, c: char): (i: nat)
    ensures i <= |s|
    ensures i < |s| ==> s[i] == c
    ensures forall j :: 0 <= j < i ==> s[j] != c
  {
    if s == [] then 0 else if s[0] == c then 0 else 1 + IndexOf(s[1..], c)
  }

  /** The first occurrence is found after a separator-free prefix. */
  lemma IndexOfAfter(a: string, c: char, b: string)
    requires c !in a
    ensures IndexOf(a + [c] + b, c) == |a|
  {
    var s := a + [c] + b;
    assert s[|a|] == c;
    assert forall j :: 0 <= j < |a| ==> s[j] == a[j];
  }

  /** Python's `s.split(c)`: every field between separators, empty ones included. */
  function Split(s: string, c: char): (parts: seq<string>)
    ensures |parts| >= 1
    ensures forall k :: 0 <= k < |parts| ==> c !in parts[k]
    decreases |s|
  {
    var i := IndexOf(s, c);
    if i == |s| then [s] else [s[..i]] + Split(s[i + 1..], c)
  }

  /** Python's `s.split(c, n)`: at most `n` splits, the rest stays in the last field. */
  function SplitN(s: string, c: char, n: nat): (parts: seq<string>)
    ensures 1 <= |parts| <= n + 1
    ensures forall k :: 0 <= k < |parts| - 1 ==> c !in parts[k]
    decreases n
  {
    var i := IndexOf(s, c);
    if i == |s| || n == 0 then [s] else [s[..i]] + SplitN(s[i + 1..], c, n - 1)
  }

  /** Python's `c.join(parts)`. */
  function Join(parts: seq<string>, c: char): string {
    if |parts| == 0 then []
    else if |parts| == 1 then parts[0]
    else parts[0] + [c] + Join(parts[1..], c)
  }

  /** Splitting at the first separator peels off the separator-free prefix. */
  lemma SplitCons(a: string, c: char, b: string)
    requires c !in a
    ensures Split(a + [c] + b, c) == [a] + Split(b, c)
  {
    var s := a + [c] + b;
    IndexOfAfter(a, c, b);
    assert s[..|a|] == a && s[|a| + 1..] == b;
  }

  lemma SplitNCons(a: string, c: char, b: string, n: nat)
    requires c !in a && n >= 1
    ensures SplitN(a + [c] + b, c, n) == [a] + SplitN(b, c, n - 1)
  {
    var s := a + [c] + b;
    IndexOfAfter(a, c, b);
    assert s[..|a|] == a && s[|a| + 1..] == b;
  }

  /** A string without the separator is one field. */
  lemma SplitNoSeparator(s: string, c: char, n: nat)
    requires c !in s
    ensures Split(s, c) == [s] && SplitN(s, c, n) == [s]
  {
  }

  /** `s.split(c, 1)` on a string holding `c` cuts it at the first `c` into exactly two fields. */
  lemma SplitOnceAt(s: string, c: char)
    requires c in s
    ensures IndexOf(s, c) < |s|
    ensures SplitN(s, c, 1) == [s[..IndexOf(s, c)], s[IndexOf(s, c) + 1..]]
  {
    var j :| 0 <= j < |s| && s[j] == c;
    assert IndexOf(s, c) <= j;
  }

  /** Joining the fields of a split restores the string. */
  lemma {:induction false} JoinSplit(s: string, c: char)
    ensures Join(Split(s, c), c) == s
    decreases |s|
  {
    var i := IndexOf(s, c);
    if i < |s| {
      var a, b := s[..i], s[i + 1..];
      assert s == a + [c] + b;
      SplitCons(a, c, b);
      JoinSplit(b, c);
    }
  }

  /** Splitting a join of separator-free fields gives the fields back. */
  lemma {:induction false} SplitJoin(parts: seq<string>, c: char)
    requires |parts| >= 1
    requires forall k :: 0 <= k < |parts| ==> c !in parts[k]
    ensures Split(Join(parts, c), c) == parts
  {
    if |parts| == 1 {
      SplitNoSeparator(parts[0], c, 0);
    } else {
      SplitJoin(parts[1..], c);
      SplitCons(parts[0], c, Join(parts[1..], c));
    }
  }

  // ---------------------------------------------------------------------
  // splitlines
  // ---------------------------------------------------------------------

  /** The index of the first line boundary in `s`, or `|s|`. */
  function LineEnd(s: string): (i: nat)
    ensures i <= |s|
    ensures i < |s| ==> IsLineBreak(s[i])
    ensures forall j :: 0 <= j < i ==> !IsLineBreak(s[j])
  {
    if s == [] then 0 else if IsLineBreak(s[0]) then 0 else 1 + LineEnd(s[1..])
  }

  /**
   * Python's `s.splitlines()`: the lines without their boundaries; "\r\n"
   * is one boundary, and a boundary at the very end opens no further line.
   */
  function SplitLines(s: string): (lines: seq<string>)
    ensures forall k :: 0 <= k < |lines| ==> NoLineBreak(lines[k])
    decreases |s|
  {
    if s == [] then []
    else
      var i := LineEnd(s);
      if i == |s| then [s]
      else
        var next := if s[i] == '\r' && i + 1 < |s| && s[i + 1] == '\n' then i + 2 else i + 1;
        [s[..i]] + SplitLines(s[next..])
  }

  lemma LineEndOfBreakFree(s: string)
    requires NoLineBreak(s)
    ensures LineEnd(s) == |s|
  {
  }

  /** A non-empty string with no line boundary is a single line. */
  lemma SplitLinesOne(s: string)
    requires s != [] && NoLineBreak(s)
    ensures SplitLines(s) == [s]
  {
    LineEndOfBreakFree(s);
  }

  /** A break-free first line followed by any single line boundary is split off on its own. */
  lemma SplitLinesBreak(a: string, b: char, rest: string)
    requires NoLineBreak(a) && IsLineBreak(b)
    requires !(b == '\r' && rest != [] && rest[0] == '\n')
    ensures SplitLines(a + [b] + rest) == [a] + SplitLines(rest)
  {
    var s := a + [b] + rest;
    assert LineEnd(s) == |a| by {
      assert IsLineBreak(s[|a|]);
      assert forall j :: 0 <= j < |a| ==> s[j] == a[j];
    }
    assert s[..|a|] == a && s[|a| + 1..] == rest;
  }

  /** "\r\n" ends a line as one boundary: no empty line appears between the two characters. */
  lemma SplitLinesCrLf(a: string, rest: string)
    requires NoLineBreak(a)
    ensures SplitLines(a + ['\r', '\n'] + rest) == [a] + SplitLines(rest)
  {
    var s := a + ['\r', '\n'] + rest;
    assert LineEnd(s) == |a| by {
      assert IsLineBreak(s[|a|]);
      assert forall j :: 0 <= j < |a| ==> s[j] == a[j];
    }
    assert s[|a|] == '\r' && s[|a| + 1] == '\n';
    assert s[..|a|] == a && s[|a| + 2..] == rest;
  }

  /** A break-free first line followed by "\n" is split off on its own. */
  lemma SplitLinesCons(a: string, rest: string)
    requires NoLineBreak(a)
    ensures SplitLines(a + ['\n'] + rest) == [a] + SplitLines(rest)
  {
    SplitLinesBreak(a, '\n', rest);
  }

  /** Lines joined by "\n" split back into the same lines (the last must not be empty). */
  lemma {:induction false} SplitLinesJoin(lines: seq<string>)
    requires forall k :: 0 <= k < |lines| ==> NoLineBreak(lines[k])
    requires lines != [] ==> lines[|lines| - 1] != []
    ensures SplitLines(Join(lines, '\n')) == lines
  {
    if |lines| == 1 {
      SplitLinesOne(lines[0]);
    } else if |lines| > 1 {
      SplitLinesJoin(lines[1..]);
      SplitLinesCons(lines[0], Join(lines[1..], '\n'));
    }
  }

  // ---------------------------------------------------------------------
  // split() without a separator
  // ---------------------------------------------------------------------

  /** The index of the first white-space character in `s`, or `|s|`. */
  function SpaceIndex(s: string): (i: nat)
    ensures i <= |s|
    ensures i < |s| ==> IsSpace(s[i])
    ensures forall j :: 0 <= j < i ==> !IsSpace(s[j])
  {
    if s == [] then 0 else if IsSpace(s[0]) then 0 else 1 + SpaceIndex(s[1..])
  }

  /** A non-empty run of non-space characters. */
  predicate IsWord(w: string) {
    w != [] && forall j :: 0 <= j < |w| ==> !IsSpace(w[j])
  }

  /** The first run of a string that starts with a non-space character is a word. */
  lemma FirstWord(t: string)
    requires t != [] && !IsSpace(t[0])
    ensures 1 <= SpaceIndex(t) && IsWord(t[..SpaceIndex(t)])
  {
    var w := t[..SpaceIndex(t)];
    assert forall j :: 0 <= j < |w| ==> w[j] == t[j];
  }

  /** Python's `s.split()`: the maximal runs of non-space characters. */
  function Words(s: string): (ws: seq<string>)
    ensures forall k :: 0 <= k < |ws| ==> IsWord(ws[k])
    decreases |s|
  {
    if s == [] then []
    else if IsSpace(s[0]) then Words(s[1..])
    else
      FirstWord(s);
      var i := SpaceIndex(s);
      [s[..i]] + Words(s[i..])
  }

  lemma SpaceIndexAfter(a: string, b: string)
    requires forall j :: 0 <= j < |a| ==> !IsSpace(a[j])
    requires b != [] && IsSpace(b[0])
    ensures SpaceIndex(a + b) == |a|
  {
    var s := a + b;
    assert IsSpace(s[|a|]);
    assert forall j :: 0 <= j < |a| ==> s[j] == a[j];
  }

  /** A single word is read back as itself. */
  lemma WordsOne(w: string)
    requires IsWord(w)
    ensures Words(w) == [w]
  {
    assert SpaceIndex(w) == |w|;
    assert w[..|w|] == w && w[|w|..] == [];
  }

  /** A word followed by a space is read off on its own. */
  lemma WordsCons(a: string, rest: string)
    requires IsWord(a)
    ensures Words(a + [' '] + rest) == [a] + Words(rest)
  {
    var b := [' '] + rest;
    var s := a + b;
    assert s == a + [' '] + rest;
    SpaceIndexAfter(a, b);
    assert s[0] == a[0];
    assert s[..|a|] == a && s[|a|..] == b;
    assert b[1..] == rest;
  }

  /** A space after `a` ends its scan for a space exactly where a scan of `a` alone ends. */
  lemma {:induction false} SpaceIndexConcat(a: string, t: string)
    requires t != [] && IsSpace(t[0])
    ensures SpaceIndex(a + t) == SpaceIndex(a)
  {
    if a != [] {
      assert (a + t)[0] == a[0];
      if !IsSpace(a[0]) {
        assert (a + t)[1..] == a[1..] + t;
        SpaceIndexConcat(a[1..], t);
      }
    } else {
      assert a + t == t;
    }
  }

  /** Any single white-space character separates words: the words of both sides, in order. */
  lemma {:induction false} WordsSplitAtSpace(a: string, sp: char, b: string)
    requires IsSpace(sp)
    ensures Words(a + [sp] + b) == Words(a) + Words(b)
    decreases |a|
  {
    if a == [] {
      var t := [sp] + b;
      assert a + [sp] + b == t && t[1..] == b;
    } else if IsSpace(a[0]) {
      WordsSplitAtSpace(a[1..], sp, b);
      SpaceHeadStep(a, sp, b);
    } else {
      FirstWord(a);
      WordsSplitAtSpace(a[SpaceIndex(a)..], sp, b);
      WordHeadStep(a, sp, b);
    }
  }

  /** A string that starts with a word: that word, then the words after it. */
  lemma WordsAtWord(s: string)
    requires s != [] && !IsSpace(s[0])
    ensures Words(s) == [s[..SpaceIndex(s)]] + Words(s[SpaceIndex(s)..])
  {
  }

  /** The step of `WordsSplitAtSpace` past leading whitespace. */
  lemma SpaceHeadStep(a: string, sp: char, b: string)
    requires a != [] && IsSpace(a[0])
    requires Words(a[1..] + [sp] + b) == Words(a[1..]) + Words(b)
    ensures Words(a + [sp] + b) == Words(a) + Words(b)
  {
    var s := a + [sp] + b;
    assert s[0] == a[0] && s[1..] == a[1..] + [sp] + b;
  }

  /** The step of `WordsSplitAtSpace` past a leading word. */
  lemma WordHeadStep(a: string, sp: char, b: string)
    requires IsSpace(sp) && a != [] && !IsSpace(a[0])
    requires Words(a[SpaceIndex(a)..] + [sp] + b) == Words(a[SpaceIndex(a)..]) + Words(b)
    ensures Words(a + [sp] + b) == Words(a) + Words(b)
  {
    var t := [sp] + b;
    var i := SpaceIndex(a);
    assert a + t == a + [sp] + b && a[i..] + t == a[i..] + [sp] + b;
    WordBeforeSpace(a, t);
    WordsAtWord(a);
    ConsAppend(a[..i], Words(a[i..]), Words(b));
  }

  /** A word followed by whitespace ends there. */
  lemma WordBeforeSpace(a: string, t: string)
    requires a != [] && !IsSpace(a[0]) && t != [] && IsSpace(t[0])
    ensures Words(a + t) == [a[..SpaceIndex(a)]] + Words(a[SpaceIndex(a)..] + t)
  {
    var s := a + t;
    var i := SpaceIndex(a);
    SpaceIndexConcat(a, t);
    assert s[0] == a[0];
    assert s[..i] == a[..i];
    assert s[i..] == a[i..] + t;
    WordsAtWord(s);
  }


  /** Putting an element in front commutes with appending. */
  lemma ConsAppend<T>(x: T, p: seq<T>, q: seq<T>)
    ensures [x] + (p + q) == ([x] + p) + q
  {
  }



  /** Words separated by single spaces are read back one by one. */
  lemma {:induction false} WordsJoin(ws: seq<string>)
    requires forall k :: 0 <= k < |ws| ==> IsWord(ws[k])
    ensures Words(Join(ws, ' ')) == ws
  {
    if |ws| == 1 {
      WordsOne(ws[0]);
    } else if |ws| > 1 {
      WordsJoin(ws[1..]);
      WordsCons(ws[0], Join(ws[1..], ' '));
    }
  }

  // ---------------------------------------------------------------------
  // Digits, int() and integer formatting
  // ---------------------------------------------------------------------

  /** Python's `s.isdigit()` over ASCII digits: non-empty and digits only. */
  predicate IsDigits(s: string) {
    |s| > 0 && forall i :: 0 <= i < |s| ==> IsAsciiDigit(s[i])
  }

  /** The value of a string of decimal digits (leading zeros allowed). */
  function DigitsValue(s: string): nat
    requires forall i :: 0 <= i < |s| ==> IsAsciiDigit(s[i])
  {
    if s == [] then 0 else 10 * DigitsValue(s[..|s| - 1]) + DigitValue(s[|s| - 1])
  }

  /** Python's `str(n)` for a natural number. */
  function NatToString(n: nat): (s: string)
    ensures IsDigits(s)
  {
    if n < 10 then [DigitChar(n)] else NatToString(n / 10) + [DigitChar(n % 10)]
  }

  /** Python's `str(i)` for any integer: a minus sign before negative numbers. */
  function IntToString(i: int): string {
    if i < 0 then ['-'] + NatToString(-i) else NatToString(i)
  }

  /** Reading back what `str(n)` wrote gives `n`. */
  lemma {:induction false} NatToStringValue(n: nat)
    ensures DigitsValue(NatToString(n)) == n
  {
    if n >= 10 {
      var s := NatToString(n);
      assert s[..|s| - 1] == NatToString(n / 10);
      NatToStringValue(n / 10);
    }
  }

  /**
   * A digit group of a Python integer literal: ASCII digits, with single
   * underscores allowed between two digits (`int("1_000") == 1000`).
   */
  predicate IsDigitGroups(s: string) {
    |s| > 0 && IsAsciiDigit(s[0]) && IsAsciiDigit(s[|s| - 1]) &&
    (forall i :: 0 <= i < |s| ==> IsAsciiDigit(s[i]) || s[i] == '_') &&
    (forall i :: 0 <= i < |s| - 1 && s[i] == '_' ==> IsAsciiDigit(s[i + 1]))
  }

  /** `s` with every underscore removed. */
  function WithoutUnderscores(s: string): (r: string)
    ensures |r| <= |s|
    ensures (forall i :: 0 <= i < |s| ==> IsAsciiDigit(s[i]) || s[i] == '_') ==>
              forall i :: 0 <= i < |r| ==> IsAsciiDigit(r[i])
  {
    if s == [] then []
    else if s[0] == '_' then WithoutUnderscores(s[1..])
    else [s[0]] + WithoutUnderscores(s[1..])
  }

  /** Python's `int(tok)` for an ASCII token: an optional sign, then digit groups. */
  function ParseInt(tok: string): (r: Option<int>)
    ensures r.Some? <==>
      (if tok != [] && (tok[0] == '+' || tok[0] == '-') then IsDigitGroups(tok[1..]) else IsDigitGroups(tok))
  {
    var signed := tok != [] && (tok[0] == '+' || tok[0] == '-');
    var body := if signed then tok[1..] else tok;
    if !IsDigitGroups(body) then None
    else
      var v: int := DigitsValue(WithoutUnderscores(body));
      Some(if signed && tok[0] == '-' then -v else v)
  }

  /** A run of digits holds no whitespace. */
  lemma DigitsAreWord(s: string)
    requires IsDigits(s)
    ensures IsWord(s)
  {
    forall j | 0 <= j < |s|
      ensures !IsSpace(s[j])
    {
      assert IsAsciiDigit(s[j]);
    }
  }

  lemma WithoutUnderscoresOfDigits(s: string)
    requires forall i :: 0 <= i < |s| ==> IsAsciiDigit(s[i])
    ensures WithoutUnderscores(s) == s
  {
  }

  /** `int(str(n)) == n`. */
  lemma ParseIntOfNat(n: nat)
    ensures ParseInt(NatToString(n)) == Some(n)
  {
    var s := NatToString(n);
    WithoutUnderscoresOfDigits(s);
    NatToStringValue(n);
  }

  /** `int(str(i)) == i` for every integer, negative ones included. */
  /** A `-` before digit groups negates their value. */
  lemma ParseIntMinus(d: string)
    requires IsDigitGroups(d)
    ensures ParseInt(['-'] + d).Some?
    ensures ParseInt(['-'] + d).value == -(DigitsValue(WithoutUnderscores(d)) as int)
  {
    var tok := ['-'] + d;
    assert tok[1..] == d;
  }

  /** A negative number written by `str` reads back as itself. */
  lemma ParseIntOfNegative(n: nat)
    ensures ParseInt(['-'] + NatToString(n)).Some? && ParseInt(['-'] + NatToString(n)).value == -(n as int)
  {
    var d := NatToString(n);
    WithoutUnderscoresOfDigits(d);
    NatToStringValue(n);
    assert IsDigitGroups(d);
    ParseIntMinus(d);
  }

  lemma ParseIntOfInt(i: int)
    ensures ParseInt(IntToString(i)).Some? && ParseInt(IntToString(i)).value == i
  {
    if i < 0 {
      ParseIntOfNegative(-i);
    } else {
      ParseIntOfNat(i);
    }
  }


  /** A leading `+` changes nothing: `int("+" + s) == int(s)` for an unsigned `s`, failures included. */
  lemma ParseIntPlus(s: string)
    requires s == [] || (s[0] != '+' && s[0] != '-')
    ensures ParseInt(['+'] + s) == ParseInt(s)
  {
    assert (['+'] + s)[1..] == s;
  }

  lemma {:induction false} DigitsValueLeadingZero(d: string)
    requires forall i :: 0 <= i < |d| ==> IsAsciiDigit(d[i])
    ensures DigitsValue(['0'] + d) == DigitsValue(d)
    decreases |d|
  {
    var z := ['0'] + d;
    if d != [] {
      assert z[..|z| - 1] == ['0'] + d[..|d| - 1];
      DigitsValueLeadingZero(d[..|d| - 1]);
    } else {
      assert z[..|z| - 1] == [];
    }
  }

  /** An unsigned token of digit groups reads as the value of its digits. */
  lemma ParseIntUnsigned(tok: string)
    requires IsDigitGroups(tok)
    ensures ParseInt(tok) == Some(DigitsValue(WithoutUnderscores(tok)) as int)
  {
    assert IsAsciiDigit(tok[0]);
  }

  lemma DigitGroupsLeadingZero(s: string)
    requires IsDigitGroups(s)
    ensures IsDigitGroups(['0'] + s)
  {
    var z := ['0'] + s;
    assert forall i :: 1 <= i < |z| ==> z[i] == s[i - 1];
  }

  /** A leading zero keeps the value: `int("0" + s) == int(s)`. */
  lemma ParseIntLeadingZero(s: string)
    requires IsDigitGroups(s)
    ensures ParseInt(['0'] + s) == ParseInt(s)
  {
    var z := ['0'] + s;
    DigitGroupsLeadingZero(s);
    ParseIntUnsigned(z);
    ParseIntUnsigned(s);
    assert z[0] == '0' && z[1..] == s;
    assert WithoutUnderscores(z) == ['0'] + WithoutUnderscores(s);
    DigitsValueLeadingZero(WithoutUnderscores(s));
  }

  lemma {:induction false} WithoutUnderscoresAppend(a: string, b: string)
    ensures WithoutUnderscores(a + b) == WithoutUnderscores(a) + WithoutUnderscores(b)
  {
    if a != [] {
      assert (a + b)[0] == a[0] && (a + b)[1..] == a[1..] + b;
      WithoutUnderscoresAppend(a[1..], b);
    } else {
      assert a + b == b;
    }
  }

  lemma DigitGroupsUnderscore(a: string, b: string)
    requires IsDigitGroups(a) && IsDigitGroups(b)
    ensures IsDigitGroups(a + ['_'] + b)
  {
    var u := a + ['_'] + b;
    assert forall i :: 0 <= i < |a| ==> u[i] == a[i];
    assert forall i :: |a| < i < |u| ==> u[i] == b[i - |a| - 1];
  }

  lemma DigitGroupsConcat(a: string, b: string)
    requires IsDigitGroups(a) && IsDigitGroups(b)
    ensures IsDigitGroups(a + b)
  {
    var v := a + b;
    assert forall i :: 0 <= i < |a| ==> v[i] == a[i];
    assert forall i :: |a| <= i < |v| ==> v[i] == b[i - |a|];
  }

  /** An underscore between two digit groups keeps the value: `int("1_000") == int("1000")`. */
  lemma ParseIntUnderscore(a: string, b: string)
    requires IsDigitGroups(a) && IsDigitGroups(b)
    ensures ParseInt(a + ['_'] + b) == ParseInt(a + b)
  {
    var u, v := a + ['_'] + b, a + b;
    DigitGroupsUnderscore(a, b);
    DigitGroupsConcat(a, b);
    assert WithoutUnderscores(u) == WithoutUnderscores(v) by {
      assert WithoutUnderscores(['_']) == [];
      WithoutUnderscoresAppend(a, ['_']);
      assert WithoutUnderscores(a + ['_']) == WithoutUnderscores(a);
      WithoutUnderscoresAppend(a + ['_'], b);
      WithoutUnderscoresAppend(a, b);
    }
    ParseIntUnsigned(u);
    ParseIntUnsigned(v);
  }

  // ---------------------------------------------------------------------
  // lower() and replace()
  // ---------------------------------------------------------------------

  function LowerChar(c: char): char {
    if 'A' <= c <= 'Z' then (c as int + 32) as char else c
  }

  /** Python's `s.lower()` over ASCII letters. */
  function Lower(s: string): (r: string)
    ensures |r| == |s|
    ensures forall i :: 0 <= i < |s| ==> r[i] == LowerChar(s[i])
  {
    seq(|s|, i requires 0 <= i < |s| => LowerChar(s[i]))
  }

  /** Python's `s.replace(c, rep)` for a one-character pattern. */
  function ReplaceChar(s: string, c: char, rep: string): (r: string)
    ensures c !in rep ==> c !in r
    ensures forall d :: d in r ==> d in rep || (d != c && d in s)
  {
    if s == [] then [] else (if s[0] == c then rep else [s[0]]) + ReplaceChar(s[1..], c, rep)
  }

  /** Replacing a character that does not occur changes nothing. */
  /** Replacing works piece by piece. */
  lemma {:induction false} ReplaceCharAppend(a: string, b: string, c: char, rep: string)
    ensures ReplaceChar(a + b, c, rep) == ReplaceChar(a, c, rep) + ReplaceChar(b, c, rep)
  {
    if a != [] {
      assert (a + b)[1..] == a[1..] + b;
      ReplaceCharAppend(a[1..], b, c, rep);
    } else {
      assert a + b == b;
    }
  }

  lemma {:induction false} ReplaceCharAbsent(s: string, c: char, rep: string)
    requires c !in s
    ensures ReplaceChar(s, c, rep) == s
  {
    if s != [] {
      ReplaceCharAbsent(s[1..], c, rep);
      assert s == [s[0]] + s[1..];
    }
  }
}
