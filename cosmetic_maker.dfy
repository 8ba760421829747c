/**
 * The cosmetic-tag maker: from the rows of a TSV sheet it writes a
 * localisation file (`l_japanese:` and two entries per named cosmetic tag)
 * and a `startup_cosmetic_tag` script (one block per country that gets a
 * cosmetic tag). Rows missing a needed cell are skipped; row order is kept.
 */
module CosmeticMaker {
  import opened Wrappers
  import opened PyText
  import opened PyInt
  import Localisation

  /** The three columns read from one TSV row; `None` where the cell is empty (NaN). */
  datatype Row = Row(tag: Option<string>, cosmeticTag: Option<string>, localization: Option<string>)

  /** The row yields localisation entries. */
  predicate HasLoc(r: Row) { r.cosmeticTag.Some? && r.localization.Some? }

  /** The row yields a startup block. */
  predicate HasTag(r: Row) { r.tag.Some? && r.cosmeticTag.Some? }

  /** The rows satisfying `keep`, in order. */
  function Kept(rows: seq<Row>, keep: Row -> bool): (r: seq<Row>)
    ensures |r| <= |rows| && forall k :: 0 <= k < |r| ==> keep(r[k])
    decreases |rows|
  {
    if rows == [] then []
    else Kept(rows[..|rows| - 1], keep) + (if keep(rows[|rows| - 1]) then [rows[|rows| - 1]] else [])
  }

  // ---------------------------------------------------------------------------
  // The localisation file

  /** ` KEY: "text"`. */
  function LocLine(key: string, text: string): string {
    " " + key + ": \"" + text + "\""
  }

  function LocRowLines(r: Row): seq<string> {
    if HasLoc(r) then
      [LocLine(r.cosmeticTag.value, r.localization.value),
       LocLine(r.cosmeticTag.value + "_DEF", r.localization.value)]
    else []
  }

  function LocBody(rows: seq<Row>): seq<string>
    decreases |rows|
  {
    if rows == [] then [] else LocBody(rows[..|rows| - 1]) + LocRowLines(rows[|rows| - 1])
  }

  /** The lines of the localisation file. */
  function LocLines(rows: seq<Row>): seq<string> {
    [Localisation.Header] + LocBody(rows)
  }

  /** `create_hoi4_loc_file`: the header, then two lines for every row with both a cosmetic tag and a text. */
  method CreateLocFile(rows: seq<Row>) returns (out: seq<string>)
    ensures out == LocLines(rows)
  {
    out := [Localisation.Header];
    for i := 0 to |rows|
      invariant out == [Localisation.Header] + LocBody(rows[..i])
    {
      var row := rows[i];
      assert rows[..i + 1][..i] == rows[..i];
      if row.cosmeticTag.Some? && row.localization.Some? {
        var cosmeticTag := row.cosmeticTag.value;
        var text := row.localization.value;
        out := out + [LocLine(cosmeticTag, text)];
        out := out + [LocLine(cosmeticTag + "_DEF", text)];
      }
    }
    assert rows[..|rows|] == rows;
  }

  /**
   * The file starts with the header; the `k`-th complete row gives lines
   * `1 + 2k` and `2 + 2k`, the plain entry first; nothing else is written.
   */
  lemma {:induction false} LocLinesShape(rows: seq<Row>)
    ensures var ls, kept := LocLines(rows), Kept(rows, HasLoc);
      && |ls| == 1 + 2 * |kept|
      && ls[0] == Localisation.Header
      && forall k :: 0 <= k < |kept| ==>
           && ls[1 + 2 * k] == LocLine(kept[k].cosmeticTag.value, kept[k].localization.value)
           && ls[2 + 2 * k] == LocLine(kept[k].cosmeticTag.value + "_DEF", kept[k].localization.value)
  {
    LocBodyShape(rows);
  }

  lemma {:induction false} LocBodyShape(rows: seq<Row>)
    ensures var b, kept := LocBody(rows), Kept(rows, HasLoc);
      && |b| == 2 * |kept|
      && forall k :: 0 <= k < |kept| ==>
           && b[2 * k] == LocLine(kept[k].cosmeticTag.value, kept[k].localization.value)
           && b[2 * k + 1] == LocLine(kept[k].cosmeticTag.value + "_DEF", kept[k].localization.value)
    decreases |rows|
  {
    if rows != [] {
      LocBodyShape(rows[..|rows| - 1]);
    }
  }

  /** A key the loader reads back unchanged: no colon, no line break, no surrounding space, not a comment or the header. */
  predicate LocKeyOk(key: string) {
    && key != [] && Trimmed(key, IsSpace) && key[0] != '#' && key != "l_japanese"
    && NoChar(key, Localisation.IsColon) && NoChar(key, IsLineBreak)
  }

  /** A text the loader reads back unchanged: one line, not starting or ending with `"`. */
  predicate LocTextOk(text: string) {
    NoChar(text, IsLineBreak) && Trimmed(text, IsDoubleQuote)
  }

  predicate LocRowOk(r: Row) {
    HasLoc(r) ==> LocKeyOk(r.cosmeticTag.value) && LocTextOk(r.localization.value)
  }

  /** The state tools' loader reads ` KEY: "text"` as `KEY -> text`. */
  lemma LocLineParses(key: string, text: string)
    requires LocKeyOk(key) && LocTextOk(text)
    ensures Localisation.ParseLine(LocLine(key, text)) == Some((key, text))
  {
    var rest := " " + ("\"" + text + "\"");
    var core := key + ":" + rest;
    LocLineSplit(key, text);
    assert Trimmed(core, IsSpace) by {
      assert core[0] == key[0];
    }
    TrimByFrame(" ", core, "", IsSpace);
    assert " " + core + "" == " " + core;
    CoreNotHeader(key, rest);
    assert core[..|key|] == key && core[|key|] == ':';
    assert core[|key| + 1..] == rest;
    Localisation.ParseLineAt(LocLine(key, text), core, |key|);
    StripOfUnpadded(key);
    QuotedValue(text);
  }

  lemma LocLineSplit(key: string, text: string)
    ensures LocLine(key, text) == " " + (key + ":" + (" " + ("\"" + text + "\"")))
  {
  }

  /** `KEY:...` is neither the header line nor a comment. */
  lemma CoreNotHeader(key: string, rest: string)
    requires LocKeyOk(key)
    ensures !StartsWith(key + ":" + rest, Localisation.Header)
    ensures !StartsWith(key + ":" + rest, "#")
  {
    var core := key + ":" + rest;
    assert core[0] == key[0];
    assert core[|key|] == ':';
    if |key| >= 11 {
      assert core[10] == key[10] != ':';
    } else if |key| < 10 {
      assert core[|key|] != Localisation.Header[|key|];
    } else {
      assert core[..10] == key != Localisation.Header[..10];
    }
  }

  /** The value part ` "text"` is read as `text`. */
  lemma QuotedValue(text: string)
    requires Trimmed(text, IsDoubleQuote)
    ensures StripQuotes(Strip(" " + ("\"" + text + "\""))) == text
  {
    var q := "\"" + text + "\"";
    assert " " + q + "" == " " + q;
    TrimByFrame(" ", q, "", IsSpace);
    TrimByFrame("\"", text, "\"", IsDoubleQuote);
  }

  /** Suffixing `_DEF` keeps a key readable. */
  lemma DefKeyOk(key: string)
    requires LocKeyOk(key)
    ensures LocKeyOk(key + "_DEF")
  {
    var d := key + "_DEF";
    assert d[0] == key[0] && d[|d| - 1] == 'F';
    assert d != "l_japanese" by {
      assert "l_japanese"[9] == 'e';
    }
  }

  /** What reading the file back should give: each complete row sets its two keys, later rows winning. */
  function LocTable(rows: seq<Row>): Localisation.Table
    decreases |rows|
  {
    if rows == [] then map[]
    else
      var t := LocTable(rows[..|rows| - 1]);
      var r := rows[|rows| - 1];
      if HasLoc(r) then
        t[r.cosmeticTag.value := r.localization.value][r.cosmeticTag.value + "_DEF" := r.localization.value]
      else t
  }

  /** The keys of the table are the cosmetic tags of the complete rows and their `_DEF` variants. */
  lemma {:induction false} LocTableKeys(rows: seq<Row>, key: string)
    ensures key in LocTable(rows) <==>
      exists i :: 0 <= i < |rows| && HasLoc(rows[i]) &&
        (key == rows[i].cosmeticTag.value || key == rows[i].cosmeticTag.value + "_DEF")
    decreases |rows|
  {
    if rows != [] {
      var front := rows[..|rows| - 1];
      LocTableKeys(front, key);
      if exists i :: 0 <= i < |rows| && HasLoc(rows[i]) &&
          (key == rows[i].cosmeticTag.value || key == rows[i].cosmeticTag.value + "_DEF") {
        var i :| 0 <= i < |rows| && HasLoc(rows[i]) &&
          (key == rows[i].cosmeticTag.value || key == rows[i].cosmeticTag.value + "_DEF");
        if i < |front| { assert front[i] == rows[i]; }
      }
      if exists i :: 0 <= i < |front| && HasLoc(front[i]) &&
          (key == front[i].cosmeticTag.value || key == front[i].cosmeticTag.value + "_DEF") {
        var i :| 0 <= i < |front| && HasLoc(front[i]) &&
          (key == front[i].cosmeticTag.value || key == front[i].cosmeticTag.value + "_DEF");
        assert rows[i] == front[i];
      }
    }
  }

  /**
   * Loading the written file with the state tools' localisation loader gives
   * back `LocTable`, provided every complete row's tag and text are readable.
   */
  lemma LocFileReadsBack(rows: seq<Row>)
    requires forall i :: 0 <= i < |rows| ==> LocRowOk(rows[i])
    ensures Localisation.TableOf(SplitLines(Lines(LocLines(rows)))) == LocTable(rows)
  {
    LocLinesOneLine(rows);
    SplitLinesOfLines(LocLines(rows));
    LocLinesTable(rows);
  }

  lemma {:induction false} LocLinesOneLine(rows: seq<Row>)
    requires forall i :: 0 <= i < |rows| ==> LocRowOk(rows[i])
    ensures forall k :: 0 <= k < |LocLines(rows)| ==> NoChar(LocLines(rows)[k], IsLineBreak)
  {
    var ls := LocLines(rows);
    var kept := Kept(rows, HasLoc);
    LocLinesShape(rows);
    forall k | 0 <= k < |ls| ensures NoChar(ls[k], IsLineBreak) {
      if k > 0 {
        var j := (k - 1) / 2;
        KeptOk(rows, j);
        var key, text := kept[j].cosmeticTag.value, kept[j].localization.value;
        DefKeyOk(key);
        LocLineOneLine(key, text);
        LocLineOneLine(key + "_DEF", text);
        assert k == 1 + 2 * j || k == 2 + 2 * j;
      }
    }
  }

  lemma LocLineOneLine(key: string, text: string)
    requires NoChar(key, IsLineBreak) && NoChar(text, IsLineBreak)
    ensures NoChar(LocLine(key, text), IsLineBreak)
  {
    var l := LocLine(key, text);
    forall i | 0 <= i < |l| ensures !IsLineBreak(l[i]) {
      if 1 <= i < 1 + |key| {
        assert l[i] == key[i - 1];
      } else if 1 + |key| + 3 <= i < |l| - 1 {
        assert l[i] == text[i - |key| - 4];
      }
    }
  }

  /** A kept row satisfies what every row satisfies. */
  lemma {:induction false} KeptOk(rows: seq<Row>, k: nat)
    requires forall i :: 0 <= i < |rows| ==> LocRowOk(rows[i])
    requires k < |Kept(rows, HasLoc)|
    ensures LocRowOk(Kept(rows, HasLoc)[k])
    decreases |rows|
  {
    var front := rows[..|rows| - 1];
    if k < |Kept(front, HasLoc)| {
      KeptOk(front, k);
    }
  }

  lemma {:induction false} LocLinesTable(rows: seq<Row>)
    requires forall i :: 0 <= i < |rows| ==> LocRowOk(rows[i])
    ensures Localisation.TableOf(LocLines(rows)) == LocTable(rows)
    decreases |rows|
  {
    if rows == [] {
      HeaderAddsNothing();
    } else {
      var front := rows[..|rows| - 1];
      var r := rows[|rows| - 1];
      LocLinesTable(front);
      assert LocLines(rows) == LocLines(front) + LocRowLines(r);
      if HasLoc(r) {
        var key, text := r.cosmeticTag.value, r.localization.value;
        LocLineParses(key, text);
        DefKeyOk(key);
        LocLineParses(key + "_DEF", text);
        TableOfTwo(LocLines(front), LocLine(key, text), LocLine(key + "_DEF", text));
      } else {
        assert LocLines(front) + LocRowLines(r) == LocLines(front);
      }
    }
  }

  lemma HeaderAddsNothing()
    ensures Localisation.TableOf([Localisation.Header]) == map[]
  {
    var h := Localisation.Header;
    StripOfUnpadded(h);
    assert StartsWith(Strip(h), h) by {
      assert h[..|h|] == h;
    }
    var es := Localisation.ParseAll([h]);
    var empty: seq<string> := [];
    assert [h][..0] == empty;
    assert es == [None];
    assert es[..0] == [];
    assert Localisation.Build(es) == Localisation.Add(Localisation.Build([]), None);
  }

  lemma TableOfTwo(lines: seq<string>, a: string, b: string)
    ensures Localisation.TableOf(lines + [a, b]) ==
      Localisation.Add(Localisation.Add(Localisation.TableOf(lines), Localisation.ParseLine(a)), Localisation.ParseLine(b))
  {
    Localisation.TableOfSnoc(lines, a);
    Localisation.TableOfSnoc(lines + [a], b);
    assert lines + [a] + [b] == lines + [a, b];
  }

  // ---------------------------------------------------------------------------
  // The startup script

  const ScriptHeader := "startup_cosmetic_tag = {"
  const ScriptFooter := "}"

  /** The block that gives country `tag` the cosmetic tag `cosmeticTag`. */
  function ScriptBlock(tag: string, cosmeticTag: string): seq<string> {
    ["    " + tag + " = {", "        set_cosmetic_tag = " + cosmeticTag, "    }"]
  }

  function ScriptRowLines(r: Row): seq<string> {
    if HasTag(r) then ScriptBlock(r.tag.value, r.cosmeticTag.value) else []
  }

  function ScriptBody(rows: seq<Row>): seq<string>
    decreases |rows|
  {
    if rows == [] then [] else ScriptBody(rows[..|rows| - 1]) + ScriptRowLines(rows[|rows| - 1])
  }

  /** The lines of the startup script. */
  function ScriptLines(rows: seq<Row>): seq<string> {
    [ScriptHeader] + ScriptBody(rows) + [ScriptFooter]
  }

  /** `create_hoi4_startup_script`: the opening line, one block per row with tag and cosmetic tag, the closing brace. */
  method CreateStartupScript(rows: seq<Row>) returns (out: seq<string>)
    ensures out == ScriptLines(rows)
  {
    out := [ScriptHeader];
    for i := 0 to |rows|
      invariant out == [ScriptHeader] + ScriptBody(rows[..i])
    {
      var row := rows[i];
      assert rows[..i + 1][..i] == rows[..i];
      if row.tag.Some? && row.cosmeticTag.Some? {
        var tag := row.tag.value;
        var cosmeticTag := row.cosmeticTag.value;
        out := out + ["    " + tag + " = {"];
        out := out + ["        set_cosmetic_tag = " + cosmeticTag];
        out := out + ["    }"];
      }
    }
    assert rows[..|rows|] == rows;
    out := out + [ScriptFooter];
  }

  /**
   * The script opens with `startup_cosmetic_tag = {`, closes with `}`, and
   * between them holds the blocks of the complete rows in row order.
   */
  lemma ScriptLinesShape(rows: seq<Row>)
    ensures var ls, kept := ScriptLines(rows), Kept(rows, HasTag);
      && |ls| == 2 + 3 * |kept|
      && ls[0] == ScriptHeader && ls[|ls| - 1] == ScriptFooter
      && forall k :: 0 <= k < |kept| ==>
           ls[1 + 3 * k..4 + 3 * k] == ScriptBlock(kept[k].tag.value, kept[k].cosmeticTag.value)
  {
    var ls, kept := ScriptLines(rows), Kept(rows, HasTag);
    var b := ScriptBody(rows);
    ScriptBodyShape(rows);
    forall k | 0 <= k < |kept|
      ensures ls[1 + 3 * k..4 + 3 * k] == ScriptBlock(kept[k].tag.value, kept[k].cosmeticTag.value)
    {
      assert ls[1 + 3 * k..4 + 3 * k] == b[3 * k..3 * k + 3];
    }
  }

  lemma {:induction false} ScriptBodyShape(rows: seq<Row>)
    ensures var b, kept := ScriptBody(rows), Kept(rows, HasTag);
      && |b| == 3 * |kept|
      && forall k :: 0 <= k < |kept| ==> b[3 * k..3 * k + 3] == ScriptBlock(kept[k].tag.value, kept[k].cosmeticTag.value)
    decreases |rows|
  {
    if rows != [] {
      var front := rows[..|rows| - 1];
      ScriptBodyShape(front);
      var b, b' := ScriptBody(rows), ScriptBody(front);
      var kept, kept' := Kept(rows, HasTag), Kept(front, HasTag);
      forall k | 0 <= k < |kept|
        ensures b[3 * k..3 * k + 3] == ScriptBlock(kept[k].tag.value, kept[k].cosmeticTag.value)
      {
        if k < |kept'| {
          assert b[3 * k..3 * k + 3] == b'[3 * k..3 * k + 3];
        } else {
          assert b[3 * k..3 * k + 3] == ScriptRowLines(rows[|rows| - 1]);
        }
      }
    }
  }
}
