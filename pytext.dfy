/**
 * The handful of Python `str` operations the state tools rely on, written out
 * over `seq<char>`: whitespace stripping, quote stripping, `splitlines()`,
 * `split()`, `startswith`, `in`, `replace`, and ASCII `lower()`, `upper()`
 * and `title()`.
 *
 * Whitespace is exactly the set of characters for which Python's
 * `str.isspace()` holds (this set is also what `\s` matches in a `str`
 * regular expression); line boundaries are exactly those of
 * `str.splitlines()`. Letter case is handled for ASCII letters only.
 */
module PyText {

  /** `c.isspace()` in Python 3. */
  predicate IsSpace(c: char) {
    c == ' ' || ('\t' <= c <= '\r') || ('\U{1C}' <= c <= '\U{1F}')
    || c == '\U{85}' || c == '\U{A0}' || c == '\U{1680}'
    || ('\U{2000}' <= c <= '\U{200A}') || c == '\U{2028}' || c == '\U{2029}'
    || c == '\U{202F}' || c == '\U{205F}' || c == '\U{3000}'
  }

  /** The characters at which `str.splitlines()` ends a line. */
  predicate IsLineBreak(c: char) {
    c == '\n' || c == '\r' || c == '\U{0B}' || c == '\U{0C}'
    || ('\U{1C}' <= c <= '\U{1E}') || c == '\U{85}' || c == '\U{2028}' || c == '\U{2029}'
  }

  predicate IsAsciiUpper(c: char) { 'A' <= c <= 'Z' }
  predicate IsAsciiLower(c: char) { 'a' <= c <= 'z' }
  predicate IsAsciiLetter(c: char) { IsAsciiUpper(c) || IsAsciiLower(c) }

  predicate AllChars(s: string, p: char -> bool) {
    forall i :: 0 <= i < |s| ==> p(s[i])
  }

  predicate NoChar(s: string, p: char -> bool) {
    forall i :: 0 <= i < |s| ==> !p(s[i])
  }

  // ---------------------------------------------------------------------------
  // Scanning

  /** The first index at or after `k` whose character satisfies `stop`, or `|s|`. */
  function Find(s: string, k: nat, stop: char -> bool): (i: nat)
    requires k <= |s|
    ensures k <= i <= |s|
    ensures forall j :: k <= j < i ==> !stop(s[j])
    ensures i < |s| ==> stop(s[i])
    decreases |s| - k
  {
    if k == |s| || stop(s[k]) then k else Find(s, k + 1, stop)
  }

  /** Find returns the first stop character: any stop character at or after `k` bounds it. */
  lemma FindFirst(s: string, k: nat, stop: char -> bool, j: nat)
    requires k <= j < |s| && stop(s[j])
    ensures Find(s, k, stop) <= j
  {
  }

  /** With no stop character in `s[k..j]`, Find reaches at least `j`. */
  lemma FindPast(s: string, k: nat, stop: char -> bool, j: nat)
    requires k <= j <= |s|
    requires forall i :: k <= i < j ==> !stop(s[i])
    ensures Find(s, k, stop) >= j
    decreases |s| - k
  {
    if k < j { FindPast(s, k + 1, stop, j); }
  }

  /** `s[a..b]` free of stop characters and `s[b]` a stop character (or `b == |s|`) pins Find. */
  lemma FindExact(s: string, a: nat, b: nat, stop: char -> bool)
    requires a <= b <= |s|
    requires forall j :: a <= j < b ==> !stop(s[j])
    requires b < |s| ==> stop(s[b])
    ensures Find(s, a, stop) == b
  {
  }

  // ---------------------------------------------------------------------------
  // Stripping

  /** Number of leading characters of `s` that satisfy `drop`. */
  function LeadLen(s: string, drop: char -> bool): (n: nat)
    ensures n <= |s|
    ensures forall i :: 0 <= i < n ==> drop(s[i])
    ensures n < |s| ==> !drop(s[n])
  {
    Find(s, 0, c => !drop(c))
  }

  /** Number of trailing characters of `s` that satisfy `drop`. */
  function TrailLen(s: string, drop: char -> bool): (n: nat)
    ensures n <= |s|
    ensures forall i :: |s| - n <= i < |s| ==> drop(s[i])
    ensures n < |s| ==> !drop(s[|s| - 1 - n])
  {
    if s == [] || !drop(s[|s| - 1]) then 0 else 1 + TrailLen(s[..|s| - 1], drop)
  }

  /** A string whose first and last characters (if any) are not droppable. */
  predicate Trimmed(s: string, drop: char -> bool) {
    |s| == 0 || (!drop(s[0]) && !drop(s[|s| - 1]))
  }

  /** `s.strip(chars)`: drop leading and trailing characters satisfying `drop`. */
  function TrimBy(s: string, drop: char -> bool): (r: string)
    ensures Trimmed(r, drop)
    ensures |r| <= |s|
  {
    var t := s[LeadLen(s, drop)..];
    t[..|t| - TrailLen(t, drop)]
  }

  /** Trimming `p + t + q`, with `p` and `q` droppable and `t` trimmed, gives back `t`. */
  lemma TrimByFrame(p: string, t: string, q: string, drop: char -> bool)
    requires AllChars(p, drop) && AllChars(q, drop) && Trimmed(t, drop)
    ensures TrimBy(p + t + q, drop) == t
  {
    var s := p + t + q;
    if t == [] {
      assert AllChars(s, drop) by {
        forall i | 0 <= i < |s| ensures drop(s[i]) {
          if i < |p| { assert s[i] == p[i]; } else { assert s[i] == q[i - |p|]; }
        }
      }
      assert LeadLen(s, drop) == |s|;
    } else {
      assert s[|p|] == t[0];
      FindExact(s, 0, |p|, c => !drop(c));
      var u := s[|p|..];
      assert u == t + q;
      TrailOfFrame(t, q, drop);
    }
  }

  lemma TrailOfFrame(t: string, q: string, drop: char -> bool)
    requires AllChars(q, drop) && |t| > 0 && !drop(t[|t| - 1])
    ensures TrailLen(t + q, drop) == |q|
    decreases |q|
  {
    if q == [] {
      assert t + q == t;
    } else {
      var q' := q[..|q| - 1];
      assert (t + q)[..|t + q| - 1] == t + q';
      TrailOfFrame(t, q', drop);
    }
  }

  /** `s.strip()`. */
  function Strip(s: string): (r: string)
    ensures Trimmed(r, IsSpace)
  {
    TrimBy(s, IsSpace)
  }

  predicate IsDoubleQuote(c: char) { c == '"' }

  /** `s.strip('"')`. */
  function StripQuotes(s: string): (r: string)
    ensures Trimmed(r, IsDoubleQuote)
  {
    TrimBy(s, IsDoubleQuote)
  }

  // ---------------------------------------------------------------------------
  // Prefixes, substrings, replacement

  predicate StartsWith(s: string, prefix: string) {
    |prefix| <= |s| && s[..|prefix|] == prefix
  }

  predicate EndsWith(s: string, suffix: string) {
    |suffix| <= |s| && s[|s| - |suffix|..] == suffix
  }

  predicate OccursAt(hay: string, needle: string, i: nat) {
    i + |needle| <= |hay| && hay[i..i + |needle|] == needle
  }

  /** `needle in hay`. */
  predicate Contains(hay: string, needle: string) {
    exists i: nat :: i <= |hay| && OccursAt(hay, needle, i)
  }

  /** `s.replace(a, b)` for single characters. */
  function ReplaceChar(s: string, a: char, b: char): (r: string)
    ensures |r| == |s|
    ensures forall i :: 0 <= i < |s| ==> r[i] == (if s[i] == a then b else s[i])
  {
    seq(|s|, i requires 0 <= i < |s| => if s[i] == a then b else s[i])
  }

  // ---------------------------------------------------------------------------
  // Letter case (ASCII)

  function LowerChar(c: char): (d: char)
    ensures !IsAsciiUpper(d)
  {
    if IsAsciiUpper(c) then (c as int + 32) as char else c
  }

  function UpperChar(c: char): (d: char)
    ensures !IsAsciiLower(d)
  {
    if IsAsciiLower(c) then (c as int - 32) as char else c
  }

  /** `s.lower()`. */
  function Lower(s: string): (r: string)
    ensures |r| == |s| && NoChar(r, IsAsciiUpper)
  {
    seq(|s|, i requires 0 <= i < |s| => LowerChar(s[i]))
  }

  /** `s.upper()`. */
  function Upper(s: string): (r: string)
    ensures |r| == |s| && NoChar(r, IsAsciiLower)
  {
    seq(|s|, i requires 0 <= i < |s| => UpperChar(s[i]))
  }

  lemma LowerIdempotent(s: string)
    ensures Lower(Lower(s)) == Lower(s)
  {
  }

  lemma LowerOfUpper(s: string)
    ensures Lower(Upper(s)) == Lower(s)
  {
  }

  lemma UpperOfLower(s: string)
    ensures Upper(Lower(s)) == Upper(s)
  {
  }

  /**
   * `str.title()`: a letter is upper-cased when the character before it is not
   * a letter, and lower-cased otherwise. `previousCased` carries the state of
   * the left-to-right scan.
   */
  function TitleFrom(s: string, previousCased: bool): (r: string)
    ensures |r| == |s|
  {
    if s == [] then []
    else if IsAsciiLetter(s[0]) then
      [if previousCased then LowerChar(s[0]) else UpperChar(s[0])] + TitleFrom(s[1..], true)
    else
      [s[0]] + TitleFrom(s[1..], false)
  }

  function Title(s: string): (r: string)
    ensures |r| == |s|
  {
    TitleFrom(s, false)
  }

  /** The character at `i` of a title-cased word depends only on `s[i]` and its left neighbour. */
  predicate TitleCharAt(s: string, r: string, i: nat, previousCased: bool)
    requires i < |s| && i < |r|
  {
    var before := if i == 0 then previousCased else IsAsciiLetter(s[i - 1]);
    r[i] == (if !IsAsciiLetter(s[i]) then s[i]
             else if before then LowerChar(s[i]) else UpperChar(s[i]))
  }

  lemma {:induction false} TitleFromAt(s: string, previousCased: bool, i: nat)
    requires i < |s|
    ensures TitleCharAt(s, TitleFrom(s, previousCased), i, previousCased)
    decreases |s|
  {
    if i > 0 {
      TitleFromAt(s[1..], IsAsciiLetter(s[0]), i - 1);
    }
  }

  /** The pointwise description of `title()`: a letter is upper-case exactly at a word start. */
  lemma TitleAt(s: string, i: nat)
    requires i < |s|
    ensures TitleCharAt(s, Title(s), i, false)
  {
    TitleFromAt(s, false, i);
  }

  // ---------------------------------------------------------------------------
  // Splitting

  /** The index just past the line boundary that starts at `i` (`\r\n` is one boundary). */
  function BreakEnd(s: string, i: nat): (j: nat)
    requires i < |s|
    ensures i < j <= |s|
  {
    if s[i] == '\r' && i + 1 < |s| && s[i + 1] == '\n' then i + 2 else i + 1
  }

  /** `s.splitlines()`: no line keeps its terminator and a final terminator adds no empty line. */
  function SplitLines(s: string): (r: seq<string>)
    ensures forall k :: 0 <= k < |r| ==> NoChar(r[k], IsLineBreak)
    ensures s == [] <==> r == []
    decreases |s|
  {
    if s == [] then []
    else
      var i := Find(s, 0, IsLineBreak);
      if i == |s| then [s] else [s[..i]] + SplitLines(s[BreakEnd(s, i)..])
  }

  /**
   * `splitlines()` ends the first line at the first boundary: `\r\n`, or one
   * line-break character that is not a `\r` directly followed by `\n`.
   */
  lemma SplitLinesStep(l: string, b: string, rest: string)
    requires NoChar(l, IsLineBreak)
    requires b == "\r\n" || (|b| == 1 && IsLineBreak(b[0]) && !(b[0] == '\r' && rest != [] && rest[0] == '\n'))
    ensures SplitLines(l + b + rest) == [l] + SplitLines(rest)
  {
    var s := l + b + rest;
    assert s[|l|] == b[0];
    assert forall j :: 0 <= j < |l| ==> s[j] == l[j];
    FindExact(s, 0, |l|, IsLineBreak);
    if b == "\r\n" {
      assert s[|l| + 1] == '\n';
    } else if |l| + 1 < |s| {
      assert s[|l| + 1] == rest[0];
    }
    assert BreakEnd(s, |l|) == |l| + |b|;
    assert s[..|l|] == l && s[|l| + |b|..] == rest;
  }

  /** A non-empty text with no line break is one line. */
  lemma SplitLinesOne(l: string)
    requires |l| > 0 && NoChar(l, IsLineBreak)
    ensures SplitLines(l) == [l]
  {
    FindExact(l, 0, |l|, IsLineBreak);
  }

  /** The text of a file written line by line, each line followed by `\n`. */
  function Lines(ls: seq<string>): string {
    if ls == [] then [] else ls[0] + "\n" + Lines(ls[1..])
  }

  /** `splitlines()` gives back the lines of a file that was written line by line. */
  lemma {:induction false} SplitLinesOfLines(ls: seq<string>)
    requires forall k :: 0 <= k < |ls| ==> NoChar(ls[k], IsLineBreak)
    ensures SplitLines(Lines(ls)) == ls
  {
    if ls != [] {
      var s := Lines(ls);
      var l := ls[0];
      assert s == l + ("\n" + Lines(ls[1..]));
      assert s[|l|] == '\n';
      FindExact(s, 0, |l|, IsLineBreak);
      assert s[..|l|] == l;
      assert s[|l| + 1..] == Lines(ls[1..]);
      SplitLinesOfLines(ls[1..]);
    }
  }

  /** `s.split()`: the maximal runs of non-whitespace characters, in order. */
  function Split(s: string): (r: seq<string>)
    ensures forall k :: 0 <= k < |r| ==> |r[k]| > 0 && NoChar(r[k], IsSpace)
    decreases |s|
  {
    var a := LeadLen(s, IsSpace);
    if a == |s| then []
    else
      var n := Find(s, a, IsSpace);
      [s[a..n]] + Split(s[n..])
  }

  /** The characters of `s` that are not whitespace, in order. */
  function NonSpace(s: string): string {
    if s == [] then [] else (if IsSpace(s[0]) then [] else [s[0]]) + NonSpace(s[1..])
  }

  function Concat(ws: seq<string>): string {
    if ws == [] then [] else ws[0] + Concat(ws[1..])
  }

  lemma {:induction false} NonSpaceAppend(a: string, b: string)
    ensures NonSpace(a + b) == NonSpace(a) + NonSpace(b)
    decreases |a|
  {
    if a == [] {
      assert a + b == b;
    } else {
      assert (a + b)[1..] == a[1..] + b;
      NonSpaceAppend(a[1..], b);
    }
  }

  lemma {:induction false} NonSpaceOfSpaces(a: string)
    requires AllChars(a, IsSpace)
    ensures NonSpace(a) == []
    decreases |a|
  {
    if a != [] { NonSpaceOfSpaces(a[1..]); }
  }

  lemma {:induction false} NonSpaceOfWord(a: string)
    requires NoChar(a, IsSpace)
    ensures NonSpace(a) == a
    decreases |a|
  {
    if a != [] { NonSpaceOfWord(a[1..]); }
  }

  /** `split()` loses only whitespace: gluing its pieces back gives every other character, in order. */
  lemma {:induction false} SplitKeepsEveryOtherChar(s: string)
    ensures Concat(Split(s)) == NonSpace(s)
    decreases |s|
  {
    var a := LeadLen(s, IsSpace);
    NonSpaceSkipsLead(s, a);
    if a < |s| {
      var n := Find(s, a, IsSpace);
      SplitKeepsEveryOtherChar(s[n..]);
      ConcatSplitStep(s, a, n);
      NonSpaceWordStep(s, a, n);
    }
  }

  lemma NonSpaceSkipsLead(s: string, a: nat)
    requires a == LeadLen(s, IsSpace)
    ensures NonSpace(s) == NonSpace(s[a..])
  {
    assert s == s[..a] + s[a..];
    NonSpaceAppend(s[..a], s[a..]);
    NonSpaceOfSpaces(s[..a]);
  }

  lemma ConcatSplitStep(s: string, a: nat, n: nat)
    requires a == LeadLen(s, IsSpace) && a < |s| && n == Find(s, a, IsSpace)
    ensures Concat(Split(s)) == s[a..n] + Concat(Split(s[n..]))
  {
    var w := s[a..n];
    assert Split(s) == [w] + Split(s[n..]);
    assert ([w] + Split(s[n..]))[1..] == Split(s[n..]);
  }

  lemma NonSpaceWordStep(s: string, a: nat, n: nat)
    requires a < n <= |s| && NoChar(s[a..n], IsSpace)
    ensures NonSpace(s[a..]) == s[a..n] + NonSpace(s[n..])
  {
    assert s[a..] == s[a..n] + s[n..];
    NonSpaceAppend(s[a..n], s[n..]);
    NonSpaceOfWord(s[a..n]);
  }

  /** Words joined by single spaces. */
  function JoinSpaced(ws: seq<string>): string {
    if ws == [] then []
    else if |ws| == 1 then ws[0]
    else ws[0] + " " + JoinSpaced(ws[1..])
  }

  lemma {:induction false} JoinSpacedStart(ws: seq<string>)
    requires ws != [] && |ws[0]| > 0
    ensures |JoinSpaced(ws)| > 0 && JoinSpaced(ws)[0] == ws[0][0]
  {
  }

  /** Joining non-empty words without whitespace gives a string with no whitespace at its ends. */
  lemma {:induction false} JoinSpacedTrimmed(ws: seq<string>)
    requires forall k :: 0 <= k < |ws| ==> |ws[k]| > 0 && NoChar(ws[k], IsSpace)
    ensures Trimmed(JoinSpaced(ws), IsSpace)
  {
    if |ws| > 1 {
      var rest := JoinSpaced(ws[1..]);
      JoinSpacedTrimmed(ws[1..]);
      JoinSpacedStart(ws[1..]);
      var s := JoinSpaced(ws);
      assert s == ws[0] + " " + rest;
      assert s[0] == ws[0][0];
      assert s[|s| - 1] == rest[|rest| - 1];
    }
  }

  /** Joining adds only spaces: a character no word has, other than a space, is not in the result. */
  lemma {:induction false} JoinSpacedNoChar(ws: seq<string>, p: char -> bool)
    requires !p(' ')
    requires forall k :: 0 <= k < |ws| ==> NoChar(ws[k], p)
    ensures NoChar(JoinSpaced(ws), p)
  {
    if |ws| > 1 {
      var rest := JoinSpaced(ws[1..]);
      JoinSpacedNoChar(ws[1..], p);
      var s := JoinSpaced(ws);
      assert s == ws[0] + " " + rest;
      forall i | 0 <= i < |s| ensures !p(s[i]) {
        if i < |ws[0]| {
          assert s[i] == ws[0][i];
        } else if i > |ws[0]| {
          assert s[i] == rest[i - |ws[0]| - 1];
        }
      }
    }
  }

  /** `split()` undoes joining words with single spaces. */
  lemma {:induction false} SplitJoinSpaced(ws: seq<string>)
    requires forall k :: 0 <= k < |ws| ==> |ws[k]| > 0 && NoChar(ws[k], IsSpace)
    ensures Split(JoinSpaced(ws)) == ws
  {
    if |ws| == 1 {
      var w := ws[0];
      SplitWordThen(w, []);
      assert w + [] == w && JoinSpaced(ws) == w;
      assert Split([]) == [];
    } else if |ws| > 1 {
      var w, tail := ws[0], ws[1..];
      assert forall k :: 0 <= k < |tail| ==> tail[k] == ws[k + 1];
      SplitJoinSpaced(tail);
      JoinSpacedStart(tail);
      var rest := JoinSpaced(tail);
      assert JoinSpaced(ws) == w + (" " + rest);
      SplitJoinStep(w, tail, rest);
      assert [w] + tail == ws;
    }
  }

  lemma SplitJoinStep(w: string, tail: seq<string>, rest: string)
    requires |w| > 0 && NoChar(w, IsSpace)
    requires |rest| > 0 && !IsSpace(rest[0]) && Split(rest) == tail
    ensures Split(w + (" " + rest)) == [w] + tail
  {
    SplitWordThen(w, " " + rest);
    SplitDropsOneSpace(" " + rest, rest);
  }

  /** A word followed by nothing or by whitespace splits off as the first piece. */
  lemma SplitWordThen(w: string, t: string)
    requires |w| > 0 && NoChar(w, IsSpace)
    requires t != [] ==> IsSpace(t[0])
    ensures Split(w + t) == [w] + Split(t)
  {
    var s := w + t;
    assert LeadLen(s, IsSpace) == 0 by { assert s[0] == w[0]; }
    FindExact(s, 0, |w|, IsSpace);
    assert s[0..|w|] == w && s[|w|..] == t;
  }

  /** Splitting `" " + rest` with `rest` starting at a word is splitting `rest`. */
  lemma SplitDropsOneSpace(t: string, rest: string)
    requires t == " " + rest && |rest| > 0 && !IsSpace(rest[0])
    ensures Split(t) == Split(rest)
  {
    assert IsSpace(t[0]) && t[1] == rest[0];
    assert LeadLen(t, IsSpace) == 1;
    assert LeadLen(rest, IsSpace) == 0;
    var n := Find(t, 1, IsSpace);
    var m := Find(rest, 0, IsSpace);
    FindExact(t, 1, m + 1, IsSpace);
    assert n == m + 1;
    assert t[1..n] == rest[0..m];
    assert t[n..] == rest[m..];
  }

  /** A text of whitespace only splits into no pieces. */
  lemma SplitOfSpaces(s: string)
    requires AllChars(s, IsSpace)
    ensures Split(s) == []
  {
    assert LeadLen(s, IsSpace) == |s|;
  }

  /** One step of `Split`: the first piece runs from the first non-space to the next space. */
  lemma SplitStep(s: string, a: nat, n: nat)
    requires a == LeadLen(s, IsSpace) && a < |s| && n == Find(s, a, IsSpace)
    ensures Split(s) == [s[a..n]] + Split(s[n..])
  {
  }

  lemma LeadLenPastSpaces(g: string, t: string)
    requires AllChars(g, IsSpace) && (t != [] ==> !IsSpace(t[0]))
    ensures LeadLen(g + t, IsSpace) == |g|
  {
    var s := g + t;
    assert forall j :: 0 <= j < |g| ==> s[j] == g[j];
    assert |g| < |s| ==> s[|g|] == t[0];
  }

  lemma FindPastPrefix(g: string, t: string, stop: char -> bool)
    ensures Find(g + t, |g|, stop) == |g| + Find(t, 0, stop)
  {
    var s := g + t;
    var m := Find(t, 0, stop);
    assert forall j :: 0 <= j < |t| ==> s[|g| + j] == t[j];
    FindExact(s, |g|, |g| + m, stop);
  }

  /** Whitespace in front of a text that starts at a word (or is empty) does not change its split. */
  lemma SplitSkipsSpaces(g: string, t: string)
    requires AllChars(g, IsSpace) && (t != [] ==> !IsSpace(t[0]))
    ensures Split(g + t) == Split(t)
  {
    LeadLenPastSpaces(g, t);
    if t == [] {
      assert g + t == g;
      SplitOfSpaces(g);
      SplitOfSpaces(t);
    } else {
      var m := Find(t, 0, IsSpace);
      SkipsSpacesParts(g, t, m);
      SplitStep(g + t, |g|, |g| + m);
      SplitStep(t, 0, m);
    }
  }

  lemma SkipsSpacesParts(g: string, t: string, m: nat)
    requires t != [] && !IsSpace(t[0]) && m == Find(t, 0, IsSpace)
    ensures LeadLen(t, IsSpace) == 0 && Find(g + t, |g|, IsSpace) == |g| + m
    ensures (g + t)[|g|..|g| + m] == t[0..m] && (g + t)[|g| + m..] == t[m..]
  {
    FindPastPrefix(g, t, IsSpace);
  }

  lemma LeadLenBeforeSpaces(m: string, q: string)
    requires LeadLen(m, IsSpace) < |m|
    ensures LeadLen(m + q, IsSpace) == LeadLen(m, IsSpace)
  {
    var s := m + q;
    assert forall j :: 0 <= j < |m| ==> s[j] == m[j];
  }

  lemma FindBeforeSpaces(m: string, q: string, a: nat)
    requires a <= |m| && AllChars(q, IsSpace)
    ensures Find(m + q, a, IsSpace) == Find(m, a, IsSpace)
  {
    var s := m + q;
    var n := Find(m, a, IsSpace);
    assert forall j :: 0 <= j < |m| ==> s[j] == m[j];
    assert n < |s| ==> IsSpace(s[n]) by {
      if n == |m| && n < |s| { assert s[n] == q[0]; }
    }
    FindExact(s, a, n, IsSpace);
  }

  lemma AllSpacesAppend(m: string, q: string)
    requires AllChars(m, IsSpace) && AllChars(q, IsSpace)
    ensures AllChars(m + q, IsSpace)
  {
    var s := m + q;
    forall j | 0 <= j < |s| ensures IsSpace(s[j]) {
      if j < |m| { assert s[j] == m[j]; } else { assert s[j] == q[j - |m|]; }
    }
  }

  /** Whitespace after a text does not change its split. */
  lemma {:induction false} SplitTrailSpaces(m: string, q: string)
    requires AllChars(q, IsSpace)
    ensures Split(m + q) == Split(m)
    decreases |m|
  {
    var a := LeadLen(m, IsSpace);
    if a == |m| {
      AllSpacesAppend(m, q);
      SplitOfSpaces(m + q);
      SplitOfSpaces(m);
    } else {
      var n := Find(m, a, IsSpace);
      TrailSpacesParts(m, q, a, n);
      SplitStep(m + q, a, n);
      SplitStep(m, a, n);
      SplitTrailSpaces(m[n..], q);
    }
  }

  lemma TrailSpacesParts(m: string, q: string, a: nat, n: nat)
    requires AllChars(q, IsSpace) && a == LeadLen(m, IsSpace) < |m| && n == Find(m, a, IsSpace)
    ensures LeadLen(m + q, IsSpace) == a && Find(m + q, a, IsSpace) == n
    ensures (m + q)[a..n] == m[a..n] && (m + q)[n..] == m[n..] + q
  {
    LeadLenBeforeSpaces(m, q);
    FindBeforeSpaces(m, q, a);
  }

  /** `s` is its stripped text between a whitespace prefix and a whitespace suffix. */
  lemma StripParts(s: string) returns (p: string, q: string)
    ensures s == p + (Strip(s) + q)
    ensures AllChars(p, IsSpace) && AllChars(q, IsSpace)
    ensures |p| < |s| ==> !IsSpace(s[|p|])
  {
    var a := LeadLen(s, IsSpace);
    var t := s[a..];
    var k := |t| - TrailLen(t, IsSpace);
    var m := t[..k];
    assert Strip(s) == m;
    p, q := s[..a], t[k..];
    assert t == m + q;
    assert s == p + t;
    LeadIsSpace(s, a);
    TrailIsSpace(t, k);
  }

  lemma LeadIsSpace(s: string, a: nat)
    requires a == LeadLen(s, IsSpace)
    ensures AllChars(s[..a], IsSpace)
  {
    forall j | 0 <= j < a ensures IsSpace(s[..a][j]) { assert s[..a][j] == s[j]; }
  }

  lemma TrailIsSpace(t: string, k: nat)
    requires k == |t| - TrailLen(t, IsSpace)
    ensures AllChars(t[k..], IsSpace)
  {
    forall j | 0 <= j < |t| - k ensures IsSpace(t[k..][j]) { assert t[k..][j] == t[k + j]; }
  }

  /** `s.strip().split()` is `s.split()`. */
  lemma SplitOfStrip(s: string)
    ensures Split(Strip(s)) == Split(s)
  {
    var p, q := StripParts(s);
    var m := Strip(s);
    var t := m + q;
    assert t != [] ==> t[0] == s[|p|];
    SplitSkipsSpaces(p, t);
    SplitTrailSpaces(m, q);
  }

  /**
   * Words with whitespace runs between them: `gaps[0] + ws[0] + gaps[1] + ...
   * + ws[n-1] + gaps[n]`.
   */
  function Spaced(ws: seq<string>, gaps: seq<string>): string
    requires |gaps| == |ws| + 1
    decreases |ws|
  {
    if ws == [] then gaps[0] else gaps[0] + ws[0] + Spaced(ws[1..], gaps[1..])
  }

  /** Every gap is whitespace; the gaps between two words are not empty. */
  predicate GapsOk(ws: seq<string>, gaps: seq<string>) {
    && |gaps| == |ws| + 1
    && (forall i :: 0 <= i < |gaps| ==> AllChars(gaps[i], IsSpace))
    && (forall i :: 0 < i < |ws| ==> |gaps[i]| > 0)
  }

  lemma SpacedStart(ws: seq<string>, gaps: seq<string>)
    requires |gaps| == |ws| + 1 && |gaps[0]| > 0
    ensures |Spaced(ws, gaps)| > 0 && Spaced(ws, gaps)[0] == gaps[0][0]
  {
  }

  /** After whitespace, a word followed by nothing or by whitespace is the first piece. */
  lemma SplitGapWordThen(g: string, w: string, r: string)
    requires AllChars(g, IsSpace) && |w| > 0 && NoChar(w, IsSpace)
    requires r != [] ==> IsSpace(r[0])
    ensures Split(g + w + r) == [w] + Split(r)
  {
    SplitWordThen(w, r);
    assert (w + r)[0] == w[0];
    SplitSkipsSpaces(g, w + r);
    assert g + w + r == g + (w + r);
  }

  /** What follows the first word of a well-spaced text is empty or starts with whitespace. */
  lemma SpacedTailStart(ws: seq<string>, gaps: seq<string>)
    requires GapsOk(ws, gaps) && ws != []
    ensures var r := Spaced(ws[1..], gaps[1..]); r != [] ==> IsSpace(r[0])
  {
    var gs := gaps[1..];
    if |ws| > 1 || gs[0] != [] {
      assert |gs[0]| > 0 by { assert gs[0] == gaps[1]; }
      SpacedStart(ws[1..], gs);
    }
  }

  /** The words and gaps after the first word, well spaced again. */
  lemma GapsOkTail(ws: seq<string>, gaps: seq<string>)
    requires GapsOk(ws, gaps) && ws != []
    ensures GapsOk(ws[1..], gaps[1..])
  {
    var gs := gaps[1..];
    assert forall i :: 0 <= i < |gs| ==> gs[i] == gaps[i + 1];
  }

  /** `split()` gives back the words however much whitespace surrounds and separates them. */
  lemma {:induction false} SplitSpaced(ws: seq<string>, gaps: seq<string>)
    requires forall k :: 0 <= k < |ws| ==> |ws[k]| > 0 && NoChar(ws[k], IsSpace)
    requires GapsOk(ws, gaps)
    ensures Split(Spaced(ws, gaps)) == ws
    decreases |ws|
  {
    if ws == [] {
      SplitOfSpaces(gaps[0]);
    } else {
      var tail := ws[1..];
      assert forall k :: 0 <= k < |tail| ==> tail[k] == ws[k + 1];
      GapsOkTail(ws, gaps);
      SplitSpaced(tail, gaps[1..]);
      SpacedTailStart(ws, gaps);
      SplitGapWordThen(gaps[0], ws[0], Spaced(tail, gaps[1..]));
      assert [ws[0]] + tail == ws;
    }
  }
}
