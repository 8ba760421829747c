/**
 * The localisation loader shared by both state tools: the file is read line
 * by line, and every line of the form `key: "value"` adds `key -> value` to
 * the table, a later line overwriting an earlier one with the same key.
 */
module Localisation {
  import opened Wrappers
  import opened PyText

  type Table = map<string, string>

  const Header := "l_japanese:"

  predicate IsColon(c: char) { c == ':' }

  /**
   * One line of the file. After stripping, a line that starts with the
   * `l_japanese:` header, starts with `#`, or has no colon adds nothing;
   * otherwise it is split at its FIRST colon into a stripped key and a value
   * that is stripped of whitespace and then of every leading and trailing `"`.
   */
  function ParseLine(raw: string): (r: Option<(string, string)>)
    ensures r.None? <==> StartsWith(Strip(raw), Header) || ':' !in Strip(raw) || StartsWith(Strip(raw), "#")
    ensures r.Some? ==> NoChar(r.value.0, IsColon)
    ensures r.Some? ==> Trimmed(r.value.0, IsSpace) && Trimmed(r.value.1, IsDoubleQuote)
  {
    var line := Strip(raw);
    if StartsWith(line, Header) then None
    else if ':' in line && !StartsWith(line, "#") then
      var i := Find(line, 0, IsColon);
      assert Trimmed(StripQuotes(Strip(line[i + 1..])), IsDoubleQuote);
      Some((Strip(line[..i]), StripQuotes(Strip(line[i + 1..]))))
    else None
  }

  /** A stripped line split at its first colon, neither header nor comment, parses to that split. */
  lemma ParseLineAt(raw: string, line: string, i: nat)
    requires Strip(raw) == line && i < |line| && line[i] == ':' && NoChar(line[..i], IsColon)
    requires !StartsWith(line, Header) && !StartsWith(line, "#")
    ensures ParseLine(raw) == Some((Strip(line[..i]), StripQuotes(Strip(line[i + 1..]))))
  {
    assert ':' in line by {
      assert line[i] == ':';
    }
    assert forall j :: 0 <= j < i ==> !IsColon(line[j]) by {
      forall j | 0 <= j < i ensures !IsColon(line[j]) {
        assert line[j] == line[..i][j];
      }
    }
    FindExact(line, 0, i, IsColon);
  }

  type Entry = Option<(string, string)>

  /** `f` applied to each element, in order. */
  function Each<A, B>(f: A -> B, xs: seq<A>): (ys: seq<B>)
    ensures |ys| == |xs|
    decreases |xs|
  {
    if xs == [] then [] else Each(f, xs[..|xs| - 1]) + [f(xs[|xs| - 1])]
  }

  lemma {:induction false} EachAt<A, B>(f: A -> B, xs: seq<A>, i: nat)
    requires i < |xs|
    ensures Each(f, xs)[i] == f(xs[i])
    decreases |xs|
  {
    var front := xs[..|xs| - 1];
    if i < |front| {
      EachAt(f, front, i);
      assert front[i] == xs[i];
    }
  }

  /** What each line contributes. */
  function ParseAll(lines: seq<string>): (es: seq<Entry>)
    ensures |es| == |lines|
  {
    Each(ParseLine, lines)
  }

  lemma ParseAllAt(lines: seq<string>, i: nat)
    requires i < |lines|
    ensures ParseAll(lines)[i] == ParseLine(lines[i])
  {
    EachAt(ParseLine, lines, i);
  }

  function Add(t: Table, entry: Entry): Table {
    match entry
    case None => t
    case Some(kv) => t[kv.0 := kv.1]
  }

  /** The dictionary filled by the entries, first to last. */
  function Build(es: seq<Entry>): Table
    decreases |es|
  {
    if es == [] then map[] else Add(Build(es[..|es| - 1]), es[|es| - 1])
  }

  /** The table built from `lines`. */
  function TableOf(lines: seq<string>): Table {
    Build(ParseAll(lines))
  }

  /** One more line updates the table by that line alone. */
  lemma TableOfSnoc(lines: seq<string>, line: string)
    ensures TableOf(lines + [line]) == Add(TableOf(lines), ParseLine(line))
  {
    var es := ParseAll(lines + [line]);
    assert (lines + [line])[..|lines|] == lines;
    assert es[..|lines|] == ParseAll(lines);
  }

  predicate EntryHasKey(e: Entry, k: string) {
    e.Some? && e.value.0 == k
  }

  lemma {:induction false} BuildKeys(es: seq<Entry>, k: string)
    ensures k in Build(es) <==> exists i :: 0 <= i < |es| && EntryHasKey(es[i], k)
    decreases |es|
  {
    if es != [] {
      var front := es[..|es| - 1];
      BuildKeys(front, k);
      if exists i :: 0 <= i < |es| && EntryHasKey(es[i], k) {
        var i :| 0 <= i < |es| && EntryHasKey(es[i], k);
        if i < |front| { assert EntryHasKey(front[i], k); }
      }
      if exists i :: 0 <= i < |front| && EntryHasKey(front[i], k) {
        var i :| 0 <= i < |front| && EntryHasKey(front[i], k);
        assert EntryHasKey(es[i], k);
      }
    }
  }

  lemma {:induction false} BuildLastWins(es: seq<Entry>, i: nat, k: string, v: string)
    requires i < |es| && es[i] == Some((k, v))
    requires forall j :: i < j < |es| ==> !EntryHasKey(es[j], k)
    ensures k in Build(es) && Build(es)[k] == v
    decreases |es|
  {
    var front := es[..|es| - 1];
    if i < |es| - 1 {
      assert forall j :: i < j < |front| ==> front[j] == es[j];
      BuildLastWins(front, i, k, v);
      assert !EntryHasKey(es[|es| - 1], k);
    }
  }

  predicate DefinesKey(line: string, k: string) {
    EntryHasKey(ParseLine(line), k)
  }

  /** Exactly the keys of the lines that parse end up in the table. */
  lemma TableKeys(lines: seq<string>, k: string)
    ensures k in TableOf(lines) <==> exists i :: 0 <= i < |lines| && DefinesKey(lines[i], k)
  {
    var es := ParseAll(lines);
    BuildKeys(es, k);
    if exists i :: 0 <= i < |es| && EntryHasKey(es[i], k) {
      var i :| 0 <= i < |es| && EntryHasKey(es[i], k);
      ParseAllAt(lines, i);
      assert DefinesKey(lines[i], k);
    }
    if exists i :: 0 <= i < |lines| && DefinesKey(lines[i], k) {
      var i :| 0 <= i < |lines| && DefinesKey(lines[i], k);
      ParseAllAt(lines, i);
      assert EntryHasKey(es[i], k);
    }
  }

  /** For a duplicated key the last line that defines it wins. */
  lemma TableLastWins(lines: seq<string>, i: nat, k: string, v: string)
    requires i < |lines| && ParseLine(lines[i]) == Some((k, v))
    requires forall j :: i < j < |lines| ==> !DefinesKey(lines[j], k)
    ensures k in TableOf(lines) && TableOf(lines)[k] == v
  {
    var es := ParseAll(lines);
    ParseAllAt(lines, i);
    assert forall j :: i < j < |es| ==> !EntryHasKey(es[j], k) by {
      forall j | i < j < |es| ensures !EntryHasKey(es[j], k) {
        ParseAllAt(lines, j);
        assert !DefinesKey(lines[j], k);
      }
    }
    BuildLastWins(es, i, k, v);
  }

  /** `load_localisation`: an unreadable file gives the empty table. */
  method LoadLocalisation(content: Option<string>) returns (table: Table)
    ensures content.None? ==> table == map[]
    ensures content.Some? ==> table == TableOf(SplitLines(content.value))
  {
    table := map[];
    if content.Some? {
      var lines := SplitLines(content.value);
      for n := 0 to |lines|
        invariant table == TableOf(lines[..n])
      {
        var entry := ParseLine(lines[n]);
        assert TableOf(lines[..n + 1]) == Add(table, entry) by {
          assert lines[..n + 1] == lines[..n] + [lines[n]];
          TableOfSnoc(lines[..n], lines[n]);
        }
        if entry.Some? {
          table := table[entry.value.0 := entry.value.1];
        }
      }
      assert lines[..|lines|] == lines;
    }
  }
}
