/**
 * The fixed regular expressions of the state parsers, each written as a
 * scanner, together with a declarative description of what Python's `re`
 * matches for it (`...Shape`) and lemmas tying the two together.
 *
 *   file name:  re.match(r"(\d+)-(.+)\.txt", name)
 *   owner:      re.search(r"owner\s*=\s*([A-Z]{3})", text)
 *   manpower:   re.search(r"manpower\s*=\s*(\d+)", text)
 *   name:       re.search(r"name\s*=\s*\"(.*?)\"", text)
 *   provinces:  re.search(r"provinces\s*=\s*{(.*?)}", text, re.DOTALL)
 *
 * `\d` is taken as ASCII digits; `\s` is Python's whitespace; `.` without
 * DOTALL is any character but `\n`.
 */
module StatePatterns {
  import opened Wrappers
  import opened PyText
  import opened PyInt

  predicate NotSpace(c: char) { !IsSpace(c) }
  predicate NotDigit(c: char) { !IsDecimalDigit(c) }
  predicate IsNewline(c: char) { c == '\n' }
  predicate QuoteOrNewline(c: char) { c == '"' || c == '\n' }
  predicate IsCloseBrace(c: char) { c == '}' }

  predicate SpacesBetween(s: string, a: nat, b: nat)
    requires a <= b <= |s|
  {
    forall j :: a <= j < b ==> IsSpace(s[j])
  }

  // ---------------------------------------------------------------------------
  // File name: re.match(r"(\d+)-(.+)\.txt", name)

  /** The two groups of a successful file name match. */
  datatype FileNameMatch = FileNameMatch(digits: string, rest: string)

  /**
   * What `re.match` accepts: digits `f[..d]`, then `-`, then a non-empty run
   * `f[d + 1..j]` without `\n`, then `.txt` at `j`. Nothing needs to follow
   * `.txt` for the match to succeed.
   */
  ghost predicate FileNameShape(f: string, d: nat, j: nat) {
    && 0 < d < j && d + 1 < j && j + 4 <= |f|
    && (forall i :: 0 <= i < d ==> IsDecimalDigit(f[i]))
    && f[d] == '-'
    && (forall i :: d + 1 <= i < j ==> f[i] != '\n')
    && OccursAt(f, ".txt", j)
  }

  /** The largest `j` in `[lo, hi]` at which `.txt` occurs. */
  function LastTxt(f: string, lo: nat, hi: nat): (r: Option<nat>)
    ensures r.Some? ==> lo <= r.value <= hi && OccursAt(f, ".txt", r.value)
    ensures r.Some? ==> forall j :: r.value < j <= hi ==> !OccursAt(f, ".txt", j)
    ensures r.None? ==> forall j :: lo <= j <= hi ==> !OccursAt(f, ".txt", j)
    decreases hi
  {
    if hi < lo then None
    else if OccursAt(f, ".txt", hi) then Some(hi)
    else if hi == 0 then None
    else LastTxt(f, lo, hi - 1)
  }

  /**
   * The file name scanner. `(\d+)` takes every leading digit (a shorter run
   * would leave a digit where `-` is needed); `(.+)` is greedy, so the engine
   * settles on the LAST `.txt` that the newline-free run can reach.
   */
  function MatchFileName(f: string): (r: Option<FileNameMatch>)
    ensures r.Some? ==> FileNameShape(f, |r.value.digits|, |r.value.digits| + 1 + |r.value.rest|)
    ensures r.Some? ==> f[..|r.value.digits|] == r.value.digits
    ensures r.Some? ==> f[|r.value.digits| + 1..|r.value.digits| + 1 + |r.value.rest|] == r.value.rest
    ensures r.Some? ==> forall j: nat :: FileNameShape(f, |r.value.digits|, j) ==> j <= |r.value.digits| + 1 + |r.value.rest|
  {
    var d := Find(f, 0, NotDigit);
    if d == 0 || d == |f| || f[d] != '-' then None
    else
      var e := Find(f, d + 1, IsNewline);
      if |f| < 4 then None
      else
        var hi := if e < |f| - 4 then e else |f| - 4;
        match LastTxt(f, d + 2, hi)
        case None => None
        case Some(j) => Some(FileNameMatch(f[..d], f[d + 1..j]))
  }

  /** Whenever the pattern can match, the scanner succeeds, with the same digit group. */
  lemma MatchFileNameComplete(f: string, d: nat, j: nat)
    requires FileNameShape(f, d, j)
    ensures MatchFileName(f).Some? && |MatchFileName(f).value.digits| == d
  {
    FindExact(f, 0, d, NotDigit);
    FindPast(f, d + 1, IsNewline, j);
  }

  /** The name the tools show for a state: underscores become spaces, then `title()`. */
  function StateNameOf(rest: string): string {
    Title(ReplaceChar(rest, '_', ' '))
  }

  // ---------------------------------------------------------------------------
  // Fields: re.search(r"<keyword>\s*=\s*<capture>", text)

  datatype Field = Owner | Manpower | NameKey | Provinces

  function Keyword(p: Field): string {
    match p
    case Owner => "owner"
    case Manpower => "manpower"
    case NameKey => "name"
    case Provinces => "provinces"
  }

  /** What every capture of the field's pattern looks like. */
  predicate CaptureOk(p: Field, v: string) {
    match p
    case Owner => |v| == 3 && AllChars(v, IsAsciiUpper)
    case Manpower => |v| > 0 && AllChars(v, IsDecimalDigit)
    case NameKey => NoChar(v, QuoteOrNewline)
    case Provinces => NoChar(v, IsCloseBrace)
  }

  /** The capture, scanned from `k`, the first character after `=` and its whitespace. */
  function Capture(p: Field, s: string, k: nat): (r: Option<string>)
    requires k <= |s|
    ensures r.Some? ==> CaptureOk(p, r.value)
  {
    match p
    case Owner =>
      if k + 3 <= |s| && AllChars(s[k..k + 3], IsAsciiUpper) then Some(s[k..k + 3]) else None
    case Manpower =>
      var m := Find(s, k, NotDigit);
      if m > k then Some(s[k..m]) else None
    case NameKey =>
      if k < |s| && s[k] == '"' then
        var m := Find(s, k + 1, QuoteOrNewline);
        if m < |s| && s[m] == '"' then Some(s[k + 1..m]) else None
      else None
    case Provinces =>
      if k < |s| && s[k] == '{' then
        var m := Find(s, k + 1, IsCloseBrace);
        if m < |s| then Some(s[k + 1..m]) else None
      else None
  }

  /**
   * Where the capture of the pattern tried at `i` starts: after the keyword,
   * whitespace, `=` and whitespace. Each `\s*` takes all the whitespace there
   * is: the character that must follow it (`=`, a letter, a digit, a quote, a
   * brace) is never whitespace, so no shorter choice can succeed.
   */
  function CaptureStart(p: Field, s: string, i: nat): (r: Option<nat>)
    ensures r.Some? ==> r.value <= |s|
  {
    var kw := Keyword(p);
    if !OccursAt(s, kw, i) then None
    else
      var e := Find(s, i + |kw|, NotSpace);
      if e == |s| || s[e] != '=' then None
      else Some(Find(s, e + 1, NotSpace))
  }

  /** The pattern tried at position `i`. */
  function MatchAt(p: Field, s: string, i: nat): (r: Option<string>)
    ensures r.Some? ==> CaptureOk(p, r.value)
  {
    match CaptureStart(p, s, i)
    case None => None
    case Some(k) => Capture(p, s, k)
  }

  /** What `re` matches at `i`: the keyword, whitespace, `=` at `e`, whitespace up to `c`. */
  ghost predicate LeadShape(p: Field, s: string, i: nat, e: nat, c: nat) {
    && i + |Keyword(p)| <= e < c <= |s|
    && OccursAt(s, Keyword(p), i)
    && SpacesBetween(s, i + |Keyword(p)|, e)
    && s[e] == '='
    && SpacesBetween(s, e + 1, c)
  }

  /**
   * A match of the field's pattern at `i` whose group is `s[c..m]`, as Python's
   * engine finds it: `{3}` exactly three letters, `\d+` greedy (a non-digit or
   * the end follows), `.*?` lazy (the first closing quote or brace ends it).
   */
  ghost predicate ShapeAt(p: Field, s: string, i: nat, e: nat, c: nat, m: nat) {
    match p
    case Owner =>
      && LeadShape(p, s, i, e, c) && m == c + 3 <= |s|
      && forall j :: c <= j < m ==> IsAsciiUpper(s[j])
    case Manpower =>
      && LeadShape(p, s, i, e, c) && c < m <= |s|
      && (forall j :: c <= j < m ==> IsDecimalDigit(s[j]))
      && (m == |s| || !IsDecimalDigit(s[m]))
    case NameKey =>
      && 0 < c <= m < |s| && LeadShape(p, s, i, e, c - 1) && s[c - 1] == '"'
      && s[m] == '"'
      && forall j :: c <= j < m ==> !QuoteOrNewline(s[j])
    case Provinces =>
      && 0 < c <= m < |s| && LeadShape(p, s, i, e, c - 1) && s[c - 1] == '{'
      && s[m] == '}'
      && forall j :: c <= j < m ==> s[j] != '}'
  }

  /** With the lead of the pattern in place, the match at `i` is the capture at `c`. */
  lemma MatchAtIsCapture(p: Field, s: string, i: nat, e: nat, c: nat)
    requires LeadShape(p, s, i, e, c)
    requires c < |s| && !IsSpace(s[c])
    ensures MatchAt(p, s, i) == Capture(p, s, c)
  {
    var kw := Keyword(p);
    FindExact(s, i + |kw|, e, NotSpace);
    FindExact(s, e + 1, c, NotSpace);
    assert CaptureStart(p, s, i) == Some(c);
  }

  /** Every match Python's engine would find at `i` is found by the scanner. */
  lemma MatchAtComplete(p: Field, s: string, i: nat, e: nat, c: nat, m: nat)
    requires ShapeAt(p, s, i, e, c, m)
    ensures MatchAt(p, s, i) == Some(s[c..m])
  {
    match p
    case Owner =>
      MatchAtIsCapture(p, s, i, e, c);
      assert AllChars(s[c..c + 3], IsAsciiUpper);
    case Manpower =>
      MatchAtIsCapture(p, s, i, e, c);
      FindExact(s, c, m, NotDigit);
    case NameKey =>
      MatchAtIsCapture(p, s, i, e, c - 1);
      FindExact(s, c, m, QuoteOrNewline);
    case Provinces =>
      MatchAtIsCapture(p, s, i, e, c - 1);
      FindExact(s, c, m, IsCloseBrace);
  }

  /** A successful scan at `i` has the lead of the pattern, up to the capture at `k`. */
  lemma MatchAtLead(p: Field, s: string, i: nat) returns (e: nat, k: nat)
    requires MatchAt(p, s, i).Some?
    ensures e < k <= |s| && MatchAt(p, s, i) == Capture(p, s, k)
    ensures k < |s| ==> LeadShape(p, s, i, e, k)
  {
    e := Find(s, i + |Keyword(p)|, NotSpace);
    k := Find(s, e + 1, NotSpace);
    assert CaptureStart(p, s, i) == Some(k);
  }

  /** Every scanner success is a match of the pattern, at the positions returned. */
  lemma MatchAtSound(p: Field, s: string, i: nat) returns (e: nat, c: nat, m: nat)
    requires MatchAt(p, s, i).Some?
    ensures ShapeAt(p, s, i, e, c, m) && MatchAt(p, s, i) == Some(s[c..m])
  {
    var k;
    e, k := MatchAtLead(p, s, i);
    match p
    case Owner => c, m := OwnerSound(s, i, e, k);
    case Manpower => c, m := ManpowerSound(s, i, e, k);
    case NameKey => c, m := NameKeySound(s, i, e, k);
    case Provinces => c, m := ProvincesSound(s, i, e, k);
  }

  lemma OwnerSound(s: string, i: nat, e: nat, k: nat) returns (c: nat, m: nat)
    requires e < k <= |s| && Capture(Owner, s, k).Some?
    requires k < |s| ==> LeadShape(Owner, s, i, e, k)
    ensures ShapeAt(Owner, s, i, e, c, m) && Capture(Owner, s, k) == Some(s[c..m])
  {
    c, m := k, k + 3;
    assert AllChars(s[c..m], IsAsciiUpper);
    assert forall j :: c <= j < m ==> s[j] == s[c..m][j - c];
  }

  lemma ManpowerSound(s: string, i: nat, e: nat, k: nat) returns (c: nat, m: nat)
    requires e < k <= |s| && Capture(Manpower, s, k).Some?
    requires k < |s| ==> LeadShape(Manpower, s, i, e, k)
    ensures ShapeAt(Manpower, s, i, e, c, m) && Capture(Manpower, s, k) == Some(s[c..m])
  {
    c, m := k, Find(s, k, NotDigit);
  }

  lemma NameKeySound(s: string, i: nat, e: nat, k: nat) returns (c: nat, m: nat)
    requires e < k <= |s| && Capture(NameKey, s, k).Some?
    requires k < |s| ==> LeadShape(NameKey, s, i, e, k)
    ensures ShapeAt(NameKey, s, i, e, c, m) && Capture(NameKey, s, k) == Some(s[c..m])
  {
    c := k + 1;
    m := Find(s, c, QuoteOrNewline);
  }

  lemma ProvincesSound(s: string, i: nat, e: nat, k: nat) returns (c: nat, m: nat)
    requires e < k <= |s| && Capture(Provinces, s, k).Some?
    requires k < |s| ==> LeadShape(Provinces, s, i, e, k)
    ensures ShapeAt(Provinces, s, i, e, c, m) && Capture(Provinces, s, k) == Some(s[c..m])
  {
    c := k + 1;
    m := Find(s, c, IsCloseBrace);
  }

  /** The pattern tried at every position of `s`, the end included. */
  function Attempts(p: Field, s: string): (ms: seq<Option<string>>)
    ensures |ms| == |s| + 1
    ensures forall j :: 0 <= j <= |s| ==> ms[j] == MatchAt(p, s, j)
  {
    seq(|s| + 1, j requires 0 <= j <= |s| => MatchAt(p, s, j))
  }

  /** The first success among the attempts from `i` on, or the last attempt. */
  function FirstFrom(ms: seq<Option<string>>, i: nat): (r: Option<string>)
    requires i < |ms|
    ensures exists k :: i <= k < |ms| && r == ms[k]
    decreases |ms| - i
  {
    if ms[i].Some? || i == |ms| - 1 then ms[i] else FirstFrom(ms, i + 1)
  }

  /** `re.search` from position `i`: the match at the leftmost position where the pattern matches. */
  function SearchFrom(p: Field, s: string, i: nat): (r: Option<string>)
    requires i <= |s|
    ensures r.Some? ==> CaptureOk(p, r.value)
  {
    FirstFrom(Attempts(p, s), i)
  }

  function Search(p: Field, s: string): (r: Option<string>)
    ensures r.Some? ==> CaptureOk(p, r.value)
  {
    SearchFrom(p, s, 0)
  }

  lemma {:induction false} FirstFromLeftmost(ms: seq<Option<string>>, i: nat, k: nat)
    requires i <= k < |ms| && ms[k].Some?
    requires forall j :: i <= j < k ==> ms[j].None?
    ensures FirstFrom(ms, i) == ms[k]
    decreases k - i
  {
    if i < k { FirstFromLeftmost(ms, i + 1, k); }
  }

  lemma {:induction false} FirstFromFinds(ms: seq<Option<string>>, i: nat) returns (k: nat)
    requires i < |ms| && FirstFrom(ms, i).Some?
    ensures i <= k < |ms| && ms[k] == FirstFrom(ms, i)
    ensures forall j :: i <= j < k ==> ms[j].None?
    decreases |ms| - i
  {
    if ms[i].Some? {
      k := i;
    } else {
      k := FirstFromFinds(ms, i + 1);
    }
  }

  lemma {:induction false} FirstFromNone(ms: seq<Option<string>>, i: nat)
    requires i < |ms| && FirstFrom(ms, i).None?
    ensures forall j :: i <= j < |ms| ==> ms[j].None?
    decreases |ms| - i
  {
    if i < |ms| - 1 { FirstFromNone(ms, i + 1); }
  }

  /** A match at `k`, with none further left, is what `re.search` returns. */
  lemma SearchLeftmost(p: Field, s: string, k: nat)
    requires k <= |s| && MatchAt(p, s, k).Some?
    requires forall j :: 0 <= j < k ==> MatchAt(p, s, j).None?
    ensures Search(p, s) == MatchAt(p, s, k)
  {
    var ms := Attempts(p, s);
    FirstFromLeftmost(ms, 0, k);
  }

  /** A successful search is the match at some position with no match to its left. */
  lemma SearchFinds(p: Field, s: string) returns (k: nat)
    requires Search(p, s).Some?
    ensures k <= |s| && MatchAt(p, s, k) == Search(p, s)
    ensures forall j :: 0 <= j < k ==> MatchAt(p, s, j).None?
  {
    var ms := Attempts(p, s);
    k := FirstFromFinds(ms, 0);
  }

  /** A failed search means the pattern matches nowhere. */
  lemma SearchNone(p: Field, s: string)
    requires Search(p, s).None?
    ensures forall j :: 0 <= j <= |s| ==> MatchAt(p, s, j).None?
  {
    var ms := Attempts(p, s);
    FirstFromNone(ms, 0);
  }

  /**
   * `re.search` in terms of the engine's matches alone: the leftmost
   * position where the pattern matches gives the group, and no match
   * anywhere gives `None`.
   */
  lemma SearchIsFirstShape(p: Field, s: string, i: nat, e: nat, c: nat, m: nat)
    requires ShapeAt(p, s, i, e, c, m)
    requires forall j: nat, e': nat, c': nat, m': nat :: j < i ==> !ShapeAt(p, s, j, e', c', m')
    ensures Search(p, s) == Some(s[c..m])
  {
    MatchAtComplete(p, s, i, e, c, m);
    forall j | 0 <= j < i ensures MatchAt(p, s, j).None? {
      if MatchAt(p, s, j).Some? {
        var e', c', m' := MatchAtSound(p, s, j);
        assert false;
      }
    }
    assert i <= |s|;
    SearchLeftmost(p, s, i);
  }

  lemma SearchNoShape(p: Field, s: string)
    requires forall j: nat, e: nat, c: nat, m: nat :: !ShapeAt(p, s, j, e, c, m)
    ensures Search(p, s).None?
  {
    if Search(p, s).Some? {
      var k := SearchFinds(p, s);
      var e, c, m := MatchAtSound(p, s, k);
      assert false;
    }
  }
}
