/**
 * The record both state tools keep per state file, and the field extraction
 * they share. The Tk tool's record has exactly the keys state_id, filename,
 * state_name, localized_name, owner and manpower; the PyQt tool's record has
 * those and provinces.
 */
module StateRecords {
  import opened Wrappers
  import opened PyText
  import opened PyInt
  import opened StatePatterns
  import Localisation

  datatype StateInfo =
    | TkStateInfo(stateId: nat, filename: string, stateName: string,
                  localizedName: string, owner: string, manpower: string)
    | QtStateInfo(stateId: nat, filename: string, stateName: string,
                  localizedName: string, owner: string, manpower: string,
                  provinces: seq<string>)

  /** The default of a field the file does not state. */
  const NotAvailable := "N/A"

  predicate OwnerOk(owner: string) {
    owner == NotAvailable || (|owner| == 3 && AllChars(owner, IsAsciiUpper))
  }

  predicate ManpowerOk(manpower: string) {
    manpower == NotAvailable || (|manpower| > 0 && AllChars(manpower, IsDecimalDigit))
  }

  predicate ProvinceIdsOk(ids: seq<string>) {
    forall k :: 0 <= k < |ids| ==> |ids[k]| > 0 && NoChar(ids[k], IsSpace)
  }

  /** What every record the parsers produce satisfies. */
  predicate WellFormed(x: StateInfo) {
    OwnerOk(x.owner) && ManpowerOk(x.manpower) && (x.QtStateInfo? ==> ProvinceIdsOk(x.provinces))
  }

  /** The owner tag: the first `owner = XYZ`, or "N/A". */
  function OwnerOf(text: string): (r: string)
    ensures OwnerOk(r)
    ensures r == NotAvailable <==> Search(Owner, text).None?
    ensures Search(Owner, text).Some? ==> r == Search(Owner, text).value
  {
    match Search(Owner, text)
    case Some(tag) =>
      assert IsAsciiUpper(tag[1]);
      tag
    case None => NotAvailable
  }

  /** The manpower: the digits of the first `manpower = N`, or "N/A". */
  function ManpowerOf(text: string): (r: string)
    ensures ManpowerOk(r)
    ensures r == NotAvailable <==> Search(Manpower, text).None?
    ensures Search(Manpower, text).Some? ==> r == Search(Manpower, text).value
  {
    match Search(Manpower, text)
    case Some(digits) =>
      assert IsDecimalDigit(digits[0]);
      digits
    case None => NotAvailable
  }

  /**
   * The localised name: the table's value for the key of the first
   * `name = "key"`; `<key not found>` when the table lacks that key; the
   * name derived from the file name when the file has no `name = "..."`.
   */
  function LocalizedNameOf(text: string, table: Localisation.Table, stateName: string): string {
    match Search(NameKey, text)
    case None => stateName
    case Some(key) => if key in table then table[key] else "<" + key + " not found>"
  }

  /** The fallback chain of the localised name, stated against the pattern matches. */
  lemma LocalizedNameChain(text: string, table: Localisation.Table, stateName: string, i: nat)
    requires i <= |text|
    requires forall j :: 0 <= j < i ==> MatchAt(NameKey, text, j).None?
    ensures MatchAt(NameKey, text, i).Some? && MatchAt(NameKey, text, i).value in table ==>
      LocalizedNameOf(text, table, stateName) == table[MatchAt(NameKey, text, i).value]
    ensures MatchAt(NameKey, text, i).Some? && MatchAt(NameKey, text, i).value !in table ==>
      LocalizedNameOf(text, table, stateName) == "<" + MatchAt(NameKey, text, i).value + " not found>"
    ensures (forall j :: 0 <= j <= |text| ==> MatchAt(NameKey, text, j).None?) ==>
      LocalizedNameOf(text, table, stateName) == stateName
  {
    if MatchAt(NameKey, text, i).Some? {
      SearchLeftmost(NameKey, text, i);
    }
    if forall j :: 0 <= j <= |text| ==> MatchAt(NameKey, text, j).None? {
      if Search(NameKey, text).Some? {
        var k := SearchFinds(NameKey, text);
      }
    }
  }

  /** `s.split()` of the stripped block, each piece stripped again. */
  function SplitStripped(block: string): seq<string> {
    var ps := Split(Strip(block));
    seq(|ps|, k requires 0 <= k < |ps| => Strip(ps[k]))
  }

  /**
   * The province list of the PyQt tool: the whitespace-separated words inside
   * the first `provinces = { ... }` (up to the first `}`), or the empty list.
   * No character of the block other than whitespace is lost.
   */
  function ProvincesOf(text: string): (r: seq<string>)
    ensures ProvinceIdsOk(r)
    ensures Search(Provinces, text).None? ==> r == []
    ensures Search(Provinces, text).Some? ==> Concat(r) == NonSpace(Search(Provinces, text).value)
  {
    match Search(Provinces, text)
    case None => []
    case Some(block) =>
      var ps := Split(Strip(block));
      StripEachWord(ps);
      SplitKeepsEveryOtherChar(Strip(block));
      NonSpaceOfStrip(block);
      SplitStripped(block)
  }

  lemma StripEachWord(ps: seq<string>)
    requires ProvinceIdsOk(ps)
    ensures seq(|ps|, k requires 0 <= k < |ps| => Strip(ps[k])) == ps
  {
    forall k | 0 <= k < |ps| ensures Strip(ps[k]) == ps[k] {
      StripOfUnpadded(ps[k]);
    }
  }

  lemma NonSpaceOfStrip(s: string)
    ensures NonSpace(Strip(s)) == NonSpace(s)
  {
    var a := LeadLen(s, IsSpace);
    var t := s[a..];
    NonSpaceSkipsLead(s, a);
    NonSpaceSkipsTrail(t, TrailLen(t, IsSpace));
  }

  lemma NonSpaceSkipsTrail(t: string, b: nat)
    requires b == TrailLen(t, IsSpace)
    ensures NonSpace(t[..|t| - b]) == NonSpace(t)
  {
    var q := t[|t| - b..];
    assert AllChars(q, IsSpace) by {
      forall i | 0 <= i < |q| ensures IsSpace(q[i]) {
        assert q[i] == t[|t| - b + i];
      }
    }
    NonSpaceAppend(t[..|t| - b], q);
    NonSpaceOfSpaces(q);
    assert t[..|t| - b] + q == t;
  }

  /** A block written as `provinces = { id id ... }` reads back as its ids. */
  lemma ProvincesOfBlock(ids: seq<string>)
    requires ProvinceIdsOk(ids)
    requires forall k :: 0 <= k < |ids| ==> NoChar(ids[k], IsCloseBrace)
    ensures ProvincesOf("provinces = { " + JoinSpaced(ids) + " }") == ids
  {
    var j := JoinSpaced(ids);
    var block := " " + j + " ";
    JoinSpacedNoChar(ids, IsCloseBrace);
    SearchPaddedBlock(j);
    assert Strip(block) == j by {
      JoinSpacedTrimmed(ids);
      TrimByFrame(" ", j, " ", IsSpace);
    }
    assert Split(j) == ids by {
      SplitJoinSpaced(ids);
    }
    assert SplitStripped(block) == ids by {
      StripEachWord(ids);
    }
  }

  /**
   * The ids read back whatever whitespace surrounds and separates them: tabs,
   * several spaces, one id per line.
   */
  lemma ProvincesOfSpaced(ids: seq<string>, gaps: seq<string>)
    requires ProvinceIdsOk(ids) && GapsOk(ids, gaps)
    requires forall k :: 0 <= k < |ids| ==> NoChar(ids[k], IsCloseBrace)
    ensures ProvincesOf("provinces = {" + Spaced(ids, gaps) + "}") == ids
  {
    var block := Spaced(ids, gaps);
    SpacedNoCloseBrace(ids, gaps);
    SearchProvincesBlock(block);
    assert Split(Strip(block)) == ids by {
      SplitOfStrip(block);
      SplitSpaced(ids, gaps);
    }
    StripEachWord(ids);
  }

  /** Neither the ids nor whitespace hold a `}`, so neither does the spaced block. */
  lemma {:induction false} SpacedNoCloseBrace(ids: seq<string>, gaps: seq<string>)
    requires GapsOk(ids, gaps)
    requires forall k :: 0 <= k < |ids| ==> NoChar(ids[k], IsCloseBrace)
    ensures NoChar(Spaced(ids, gaps), IsCloseBrace)
    decreases |ids|
  {
    var g := gaps[0];
    assert NoChar(g, IsCloseBrace) by {
      forall x | 0 <= x < |g| ensures !IsCloseBrace(g[x]) { assert IsSpace(g[x]); }
    }
    if ids != [] {
      GapsOkTail(ids, gaps);
      var tail := ids[1..];
      assert forall k :: 0 <= k < |tail| ==> tail[k] == ids[k + 1];
      SpacedNoCloseBrace(tail, gaps[1..]);
      var w, r := ids[0], Spaced(tail, gaps[1..]);
      var s := Spaced(ids, gaps);
      assert s == g + w + r;
      forall x | 0 <= x < |s| ensures !IsCloseBrace(s[x]) {
        if x < |g| { assert s[x] == g[x]; }
        else if x < |g| + |w| { assert s[x] == w[x - |g|]; }
        else { assert s[x] == r[x - |g| - |w|]; }
      }
    }
  }

  /** `provinces = { j }` captures ` j `. */
  lemma SearchPaddedBlock(j: string)
    requires NoChar(j, IsCloseBrace)
    ensures Search(Provinces, "provinces = { " + j + " }") == Some(" " + j + " ")
  {
    var block := " " + j + " ";
    assert NoChar(block, IsCloseBrace) by {
      forall x | 0 <= x < |block| ensures !IsCloseBrace(block[x]) {
        if 1 <= x < |block| - 1 { assert block[x] == j[x - 1]; }
      }
    }
    assert "provinces = { " + j + " }" == "provinces = {" + block + "}";
    SearchProvincesBlock(block);
  }

  /** The first `provinces = {` followed by a block without `}` captures that block. */
  lemma SearchProvincesBlock(b: string)
    requires NoChar(b, IsCloseBrace)
    ensures Search(Provinces, "provinces = {" + b + "}") == Some(b)
  {
    var s := "provinces = {" + b + "}";
    var m := |s| - 1;
    assert s[13..m] == b;
    assert forall x :: 13 <= x < m ==> s[x] != '}' by {
      forall x | 13 <= x < m ensures s[x] != '}' {
        assert s[x] == b[x - 13];
      }
    }
    assert s[..9] == "provinces";
    assert LeadShape(Provinces, s, 0, 10, 12);
    assert ShapeAt(Provinces, s, 0, 10, 13, m);
    MatchAtComplete(Provinces, s, 0, 10, 13, m);
    SearchLeftmost(Provinces, s, 0);
  }

  // ---------------------------------------------------------------------------
  // parse_state_file and load_state_files

  /** Which tool is parsing: the PyQt tool also collects the province list. */
  datatype Tool = TkTool | QtTool

  /** A directory entry: its name, and its text, or `None` when it cannot be opened or decoded. */
  datatype DirEntry = DirEntry(name: string, content: Option<string>)

  /**
   * `parse_state_file`: `None` when the file name does not match
   * `(\d+)-(.+)\.txt` or the file cannot be read; otherwise the record, with
   * the defaults for whatever the file does not state.
   */
  function ParseStateFile(tool: Tool, filename: string, content: Option<string>, table: Localisation.Table): (r: Option<StateInfo>)
    ensures r.Some? <==> MatchFileName(filename).Some? && content.Some?
    ensures r.Some? ==> WellFormed(r.value) && r.value.filename == filename
    ensures r.Some? ==> (r.value.QtStateInfo? <==> tool == QtTool)
    ensures r.Some? ==> ParseInt(MatchFileName(filename).value.digits, 10) == Some(r.value.stateId as int)
  {
    match MatchFileName(filename)
    case None => None
    case Some(m) =>
      if content.None? then None
      else
        var text := content.value;
        var name := StateNameOf(m.rest);
        var id := ValueOf(m.digits, 10);
        assert !HasHexPrefix(m.digits) by { if |m.digits| >= 2 { assert IsDecimalDigit(m.digits[1]); } }
        ParseIntUnsigned(m.digits, 10);
        match tool
        case TkTool =>
          Some(TkStateInfo(id, filename, name, LocalizedNameOf(text, table, name), OwnerOf(text), ManpowerOf(text)))
        case QtTool =>
          Some(QtStateInfo(id, filename, name, LocalizedNameOf(text, table, name), OwnerOf(text), ManpowerOf(text),
                           ProvincesOf(text)))
  }

  /** The two tools read the same six fields; only the PyQt tool adds the provinces. */
  lemma ToolsAgree(filename: string, content: Option<string>, table: Localisation.Table)
    ensures ParseStateFile(TkTool, filename, content, table).Some? == ParseStateFile(QtTool, filename, content, table).Some?
    ensures ParseStateFile(QtTool, filename, content, table).Some? ==>
      var t, q := ParseStateFile(TkTool, filename, content, table).value, ParseStateFile(QtTool, filename, content, table).value;
      && t == TkStateInfo(q.stateId, q.filename, q.stateName, q.localizedName, q.owner, q.manpower)
      && q.provinces == ProvincesOf(content.value)
  {
  }

  /** The fields of a parsed record, stated against the file name and the text. */
  lemma ParsedFields(tool: Tool, filename: string, text: string, table: Localisation.Table)
    requires MatchFileName(filename).Some?
    ensures var m := MatchFileName(filename).value;
      var x := ParseStateFile(tool, filename, Some(text), table).value;
      && filename[..|m.digits|] == m.digits && filename[|m.digits|] == '-'
      && x.stateName == Title(ReplaceChar(m.rest, '_', ' '))
      && x.owner == OwnerOf(text) && x.manpower == ManpowerOf(text)
      && x.localizedName == LocalizedNameOf(text, table, x.stateName)
      && (tool == QtTool ==> x.provinces == ProvincesOf(text))
      && (x.owner == NotAvailable <==> Search(Owner, text).None?)
      && (Search(Owner, text).Some? ==> x.owner == Search(Owner, text).value)
      && (x.manpower == NotAvailable <==> Search(Manpower, text).None?)
      && (Search(Manpower, text).Some? ==> x.manpower == Search(Manpower, text).value)
      && (Search(NameKey, text).None? ==> x.localizedName == x.stateName)
      && (Search(NameKey, text).Some? && Search(NameKey, text).value in table ==>
            x.localizedName == table[Search(NameKey, text).value])
      && (Search(NameKey, text).Some? && Search(NameKey, text).value !in table ==>
            x.localizedName == "<" + Search(NameKey, text).value + " not found>")
  {
  }

  predicate IsTxt(name: string) {
    EndsWith(name, ".txt")
  }

  /** What one directory entry adds: the record of a `.txt` file that parses. */
  function Contribution(tool: Tool, e: DirEntry, table: Localisation.Table): (r: Option<StateInfo>)
    ensures r.Some? ==> IsTxt(e.name) && ParseStateFile(tool, e.name, e.content, table) == r
  {
    if IsTxt(e.name) then ParseStateFile(tool, e.name, e.content, table) else None
  }

  function Contributions(tool: Tool, dir: seq<DirEntry>, table: Localisation.Table): (cs: seq<Option<StateInfo>>)
    ensures |cs| == |dir| && forall i :: 0 <= i < |dir| ==> cs[i] == Contribution(tool, dir[i], table)
  {
    seq(|dir|, i requires 0 <= i < |dir| => Contribution(tool, dir[i], table))
  }

  /** The present values, in order. */
  function Keep(cs: seq<Option<StateInfo>>): (r: seq<StateInfo>)
    ensures |r| <= |cs|
    decreases |cs|
  {
    if cs == [] then []
    else Keep(cs[..|cs| - 1]) + (if cs[|cs| - 1].Some? then [cs[|cs| - 1].value] else [])
  }

  lemma {:induction false} KeepMembers(cs: seq<Option<StateInfo>>, x: StateInfo)
    ensures x in Keep(cs) <==> exists i :: 0 <= i < |cs| && cs[i] == Some(x)
    decreases |cs|
  {
    if cs != [] {
      var front := cs[..|cs| - 1];
      KeepMembers(front, x);
      if exists i :: 0 <= i < |cs| && cs[i] == Some(x) {
        var i :| 0 <= i < |cs| && cs[i] == Some(x);
        if i < |front| { assert front[i] == Some(x); }
      }
      if exists i :: 0 <= i < |front| && front[i] == Some(x) {
        var i :| 0 <= i < |front| && front[i] == Some(x);
        assert cs[i] == Some(x);
      }
    }
  }

  /** `load_state_files`: the records of the `.txt` entries that parse, in directory order. */
  function LoadedStates(tool: Tool, dir: seq<DirEntry>, table: Localisation.Table): seq<StateInfo> {
    Keep(Contributions(tool, dir, table))
  }

  /** A record is loaded exactly when some `.txt` entry parses to it. */
  lemma LoadedStatesMembers(tool: Tool, dir: seq<DirEntry>, table: Localisation.Table, x: StateInfo)
    ensures x in LoadedStates(tool, dir, table) <==>
      exists i :: 0 <= i < |dir| && IsTxt(dir[i].name) && ParseStateFile(tool, dir[i].name, dir[i].content, table) == Some(x)
  {
    var cs := Contributions(tool, dir, table);
    KeepMembers(cs, x);
    if exists i :: 0 <= i < |cs| && cs[i] == Some(x) {
      var i :| 0 <= i < |cs| && cs[i] == Some(x);
      assert IsTxt(dir[i].name) && ParseStateFile(tool, dir[i].name, dir[i].content, table) == Some(x);
    }
    if exists i :: 0 <= i < |dir| && IsTxt(dir[i].name) && ParseStateFile(tool, dir[i].name, dir[i].content, table) == Some(x) {
      var i :| 0 <= i < |dir| && IsTxt(dir[i].name) && ParseStateFile(tool, dir[i].name, dir[i].content, table) == Some(x);
      assert cs[i] == Some(x);
    }
  }

  /** Every loaded record is well formed and of the tool's own shape. */
  lemma LoadedStatesWellFormed(tool: Tool, dir: seq<DirEntry>, table: Localisation.Table, x: StateInfo)
    requires x in LoadedStates(tool, dir, table)
    ensures WellFormed(x) && (x.QtStateInfo? <==> tool == QtTool)
  {
    LoadedStatesMembers(tool, dir, table, x);
  }

  lemma LoadedStatesSnoc(tool: Tool, dir: seq<DirEntry>, e: DirEntry, table: Localisation.Table)
    ensures LoadedStates(tool, dir + [e], table) == LoadedStates(tool, dir, table) +
      (if Contribution(tool, e, table).Some? then [Contribution(tool, e, table).value] else [])
  {
    var cs := Contributions(tool, dir + [e], table);
    assert cs[..|dir|] == Contributions(tool, dir, table);
  }
}
