/**
 * The Tk state-file lister. Its state is that of the PyQt lister without
 * provinces; it re-sorts after every search, and a double click opens the
 * file by converting the Treeview item id (`I001`, `I002`, ...) into an
 * index into the filtered list.
 */
module StateToolTk {
  import opened Wrappers
  import opened PyText
  import opened PyInt
  import Localisation
  import opened StatePatterns
  import opened StateRecords
  import opened StateSort
  import opened StateSearch

  /** The id Tk gives the `n`-th item it inserts into a Treeview: `"I%03X" % n`. */
  function ItemId(n: nat): string {
    "I" + ZeroPadded(n, 3, 16)
  }

  /** `item_id[1:]`, with Python's slicing of a too-short string. */
  function DropFirst(s: string): string {
    if |s| >= 1 then s[1..] else []
  }

  /** `int(item_id[1:], 16) - 1`; `None` where `int()` raises `ValueError`. */
  function ItemIndex(itemId: string): Option<int> {
    match ParseInt(DropFirst(itemId), 16)
    case None => None
    case Some(n) => Some(n - 1)
  }

  /** The conversion the source relies on: item `I%03X` of `n` is index `n - 1`. */
  lemma ItemIndexOfItemId(n: nat)
    ensures ItemIndex(ItemId(n)) == Some(n - 1)
  {
    assert DropFirst(ItemId(n)) == ZeroPadded(n, 3, 16);
    ParseIntOfZeroPadded(n, 3, 16);
  }

  /** What a double click leads to. */
  datatype OpenOutcome = NoSelection | NotAnItemId | InvalidIndex | OpenFile(filename: string)

  /** `open_state_file_in_vscode` against the filtered list `xs`. */
  function SelectedFileIn(xs: seq<StateInfo>, selection: seq<string>): (r: OpenOutcome)
    ensures r.NoSelection? <==> selection == []
    ensures r.OpenFile? <==> selection != [] && ItemIndex(selection[0]).Some? && 0 <= ItemIndex(selection[0]).value < |xs|
    ensures r.OpenFile? ==> r.filename == xs[ItemIndex(selection[0]).value].filename
  {
    if selection == [] then NoSelection
    else match ItemIndex(selection[0])
      case None => NotAnItemId
      case Some(i) => if 0 <= i < |xs| then OpenFile(xs[i].filename) else InvalidIndex
  }

  /**
   * When the filtered list is the list the tree shows and the tree's items
   * were numbered from `I001`, double-clicking row `r` opens that row's file.
   */
  lemma OpensShownRow(shown: seq<StateInfo>, r: nat)
    requires r < |shown|
    ensures SelectedFileIn(shown, [ItemId(r + 1)]) == OpenFile(shown[r].filename)
  {
    ItemIndexOfItemId(r + 1);
  }

  class StateFileLister {
    var stateFilesInfo: seq<StateInfo>
    var filteredStateFilesInfo: seq<StateInfo>
    var sortKey: string
    var sortOrderAscending: bool
    var localisationStrings: Localisation.Table
    /** The records the Treeview currently lists, top to bottom. */
    var shownRows: seq<StateInfo>

    /** The tree shows exactly the filtered list. */
    predicate InSync()
      reads this
    {
      shownRows == filteredStateFilesInfo
    }

    /** Every loaded record is a well-formed Tk record, and both lists hold loaded records only. */
    predicate Valid()
      reads this
    {
      && (forall x :: x in stateFilesInfo ==> WellFormed(x) && x.TkStateInfo?)
      && (forall x :: x in filteredStateFilesInfo ==> x in stateFilesInfo)
      && (forall x :: x in shownRows ==> x in stateFilesInfo)
    }

    /**
     * `__init__` as written: the records are loaded, sorted by id and shown;
     * then the filtered list is reset to the unsorted records WITHOUT
     * refreshing the tree.
     */
    constructor (localisation: Option<string>, dir: seq<DirEntry>)
      ensures localisation.None? ==> localisationStrings == map[]
      ensures localisation.Some? ==> localisationStrings == Localisation.TableOf(SplitLines(localisation.value))
      ensures sortKey == "state_id" && sortOrderAscending
      ensures stateFilesInfo == LoadedStates(TkTool, dir, localisationStrings)
      ensures shownRows == SortByName(stateFilesInfo, "state_id", true)
      ensures filteredStateFilesInfo == stateFilesInfo
      ensures Valid()
    {
      stateFilesInfo := [];
      filteredStateFilesInfo := [];
      sortKey := "state_id";
      sortOrderAscending := true;
      shownRows := [];
      var table := Localisation.LoadLocalisation(localisation);
      localisationStrings := table;
      new;
      LoadStateFiles(dir);
      filteredStateFilesInfo := stateFilesInfo;
    }

    /** `__init__` without the reset: the tree and the filtered list stay the same sorted list. */
    constructor Synced(localisation: Option<string>, dir: seq<DirEntry>)
      ensures localisation.None? ==> localisationStrings == map[]
      ensures localisation.Some? ==> localisationStrings == Localisation.TableOf(SplitLines(localisation.value))
      ensures sortKey == "state_id" && sortOrderAscending
      ensures stateFilesInfo == LoadedStates(TkTool, dir, localisationStrings)
      ensures filteredStateFilesInfo == SortByName(stateFilesInfo, "state_id", true)
      ensures InSync() && Valid()
    {
      stateFilesInfo := [];
      filteredStateFilesInfo := [];
      sortKey := "state_id";
      sortOrderAscending := true;
      shownRows := [];
      var table := Localisation.LoadLocalisation(localisation);
      localisationStrings := table;
      new;
      LoadStateFiles(dir);
    }

    /** `load_state_files`: parse every `.txt` entry in directory order, keep those that parse, then sort. */
    method LoadStateFiles(dir: seq<DirEntry>)
      modifies this
      ensures stateFilesInfo == LoadedStates(TkTool, dir, localisationStrings)
      ensures filteredStateFilesInfo == SortByName(stateFilesInfo, sortKey, sortOrderAscending)
      ensures InSync() && Valid()
      ensures sortKey == old(sortKey) && sortOrderAscending == old(sortOrderAscending)
      ensures localisationStrings == old(localisationStrings)
    {
      stateFilesInfo := [];
      for i := 0 to |dir|
        invariant stateFilesInfo == LoadedStates(TkTool, dir[..i], localisationStrings)
        invariant sortKey == old(sortKey) && sortOrderAscending == old(sortOrderAscending)
        invariant localisationStrings == old(localisationStrings)
      {
        var e := dir[i];
        LoadedStatesSnoc(TkTool, dir[..i], e, localisationStrings);
        assert dir[..i + 1] == dir[..i] + [e];
        if IsTxt(e.name) {
          var info := ParseStateFile(TkTool, e.name, e.content, localisationStrings);
          if info.Some? {
            stateFilesInfo := stateFilesInfo + [info.value];
          }
        }
      }
      assert dir[..|dir|] == dir;
      filteredStateFilesInfo := stateFilesInfo;
      forall x | x in stateFilesInfo ensures WellFormed(x) && x.TkStateInfo? {
        LoadedStatesWellFormed(TkTool, dir, localisationStrings, x);
      }
      SortStateFiles();
    }

    /** `display_state_files`: the tree lists the filtered records. */
    method DisplayStateFiles()
      modifies this
      ensures shownRows == filteredStateFilesInfo
      ensures filteredStateFilesInfo == old(filteredStateFilesInfo) && stateFilesInfo == old(stateFilesInfo)
      ensures sortKey == old(sortKey) && sortOrderAscending == old(sortOrderAscending)
      ensures localisationStrings == old(localisationStrings)
    {
      shownRows := filteredStateFilesInfo;
    }

    /** `sort_state_files`: sort the filtered list by the stored key and direction, and show it. */
    method SortStateFiles()
      modifies this
      requires forall x :: x in filteredStateFilesInfo ==> x in stateFilesInfo
      requires forall x :: x in stateFilesInfo ==> WellFormed(x) && x.TkStateInfo?
      ensures filteredStateFilesInfo == SortByName(old(filteredStateFilesInfo), sortKey, sortOrderAscending)
      ensures InSync() && Valid()
      ensures stateFilesInfo == old(stateFilesInfo)
      ensures sortKey == old(sortKey) && sortOrderAscending == old(sortOrderAscending)
      ensures localisationStrings == old(localisationStrings)
    {
      var reverseOrder := !sortOrderAscending;
      var key := ParseSortKey(sortKey);
      if key.Some? {
        filteredStateFilesInfo := Sort(filteredStateFilesInfo, key.value, !reverseOrder);
      }
      SortByNameKeepsMembers(old(filteredStateFilesInfo), sortKey, sortOrderAscending, stateFilesInfo);
      DisplayStateFiles();
    }

    /** `change_sort_key`: the combobox text becomes the key name, and the list is sorted by it. */
    method ChangeSortKey(key: string)
      modifies this
      requires Valid()
      ensures sortKey == key && sortOrderAscending == old(sortOrderAscending)
      ensures filteredStateFilesInfo == SortByName(old(filteredStateFilesInfo), key, sortOrderAscending)
      ensures InSync() && Valid()
      ensures stateFilesInfo == old(stateFilesInfo) && localisationStrings == old(localisationStrings)
    {
      sortKey := key;
      SortStateFiles();
    }

    /** `toggle_sort_order`: flip the direction and sort. */
    method ToggleSortOrder()
      modifies this
      requires Valid()
      ensures sortOrderAscending == !old(sortOrderAscending) && sortKey == old(sortKey)
      ensures filteredStateFilesInfo == SortByName(old(filteredStateFilesInfo), sortKey, sortOrderAscending)
      ensures InSync() && Valid()
      ensures stateFilesInfo == old(stateFilesInfo) && localisationStrings == old(localisationStrings)
    {
      sortOrderAscending := !sortOrderAscending;
      SortStateFiles();
    }

    /** `sort_by_column`: the same column flips the direction; another column sorts ascending by it. */
    method SortByColumn(column: string)
      modifies this
      requires Valid()
      ensures sortKey == column
      ensures sortOrderAscending == (if old(sortKey) == column then !old(sortOrderAscending) else true)
      ensures filteredStateFilesInfo == SortByName(old(filteredStateFilesInfo), column, sortOrderAscending)
      ensures InSync() && Valid()
      ensures stateFilesInfo == old(stateFilesInfo) && localisationStrings == old(localisationStrings)
    {
      if sortKey == column {
        ToggleSortOrder();
      } else {
        sortKey := column;
        sortOrderAscending := true;
        SortStateFiles();
      }
    }

    /** `search_state_files`: keep the loaded records that match, in load order, then sort and show them. */
    method SearchStateFiles(q: SearchInput)
      modifies this
      requires Valid()
      ensures filteredStateFilesInfo == SortByName(Filter(stateFilesInfo, q), sortKey, sortOrderAscending)
      ensures InSync() && Valid()
      ensures stateFilesInfo == old(stateFilesInfo) && localisationStrings == old(localisationStrings)
      ensures sortKey == old(sortKey) && sortOrderAscending == old(sortOrderAscending)
    {
      var all := stateFilesInfo;
      filteredStateFilesInfo := [];
      for i := 0 to |all|
        invariant filteredStateFilesInfo == Filter(all[..i], q)
        invariant stateFilesInfo == old(stateFilesInfo) && localisationStrings == old(localisationStrings)
        invariant sortKey == old(sortKey) && sortOrderAscending == old(sortOrderAscending)
      {
        var stateInfo := all[i];
        assert all[..i + 1][..i] == all[..i];
        if Matches(q, stateInfo) {
          filteredStateFilesInfo := filteredStateFilesInfo + [stateInfo];
        }
      }
      assert all[..|all|] == all;
      FilterKeepsMembers(all, q);
      SortStateFiles();
      DisplayStateFiles();
    }

    /** `open_state_file_in_vscode`: what a double click with this selection does. */
    function SelectedFile(selection: seq<string>): OpenOutcome
      reads this
    {
      SelectedFileIn(filteredStateFilesInfo, selection)
    }
  }

  /** In a tree numbered from `I001` (its first filling), double-clicking the shown row `r` opens its file. */
  lemma OpenAfterRefresh(l: StateFileLister, r: nat)
    requires l.InSync() && r < |l.shownRows|
    ensures l.SelectedFile([ItemId(r + 1)]) == OpenFile(l.shownRows[r].filename)
  {
    OpensShownRow(l.shownRows, r);
  }

  /** A directory that lists `2-b.txt` before `1-a.txt`, both files empty. */
  const UnsortedDir := [DirEntry("2-b.txt", Some("")), DirEntry("1-a.txt", Some(""))]
  const StateB := TkStateInfo(2, "2-b.txt", "B", "B", NotAvailable, NotAvailable)
  const StateA := TkStateInfo(1, "1-a.txt", "A", "A", NotAvailable, NotAvailable)

  lemma UnsortedDirLoads()
    ensures LoadedStates(TkTool, UnsortedDir, map[]) == [StateB, StateA]
  {
    var cs := Contributions(TkTool, UnsortedDir, map[]);
    assert cs[0] == Some(StateB) by {
      ParsesSimpleName("2-b.txt", '2', 'b', 'B');
    }
    assert cs[1] == Some(StateA) by {
      ParsesSimpleName("1-a.txt", '1', 'a', 'A');
    }
    KeepTwo(cs);
  }

  lemma KeepTwo(cs: seq<Option<StateInfo>>)
    requires |cs| == 2 && cs[0].Some? && cs[1].Some?
    ensures Keep(cs) == [cs[0].value, cs[1].value]
  {
    assert cs[..1][..0] == [];
  }

  lemma UnsortedDirSorts()
    ensures SortByName([StateB, StateA], "state_id", true) == [StateA, StateB]
  {
    assert [StateB, StateA][..1] == [StateB];
    assert [StateB][..0] == [];
    assert Sort([StateB], ById, true) == [StateB];
  }

  /**
   * The fresh window on `UnsortedDir` (the as-written constructor's state):
   * the tree's first row, `I001`, shows `1-a.txt`, but double-clicking it
   * opens `2-b.txt`, because the filtered list was reset to load order.
   */
  lemma FreshWindowOpensWrongFile()
    ensures var states := LoadedStates(TkTool, UnsortedDir, map[]);
      && SortByName(states, "state_id", true) == [StateA, StateB]
      && SelectedFileIn(states, [ItemId(1)]) == OpenFile(StateB.filename)
      && StateB.filename != StateA.filename
  {
    UnsortedDirLoads();
    UnsortedDirSorts();
    ItemIndexOfItemId(1);
  }

  /** `d-l.txt` with an empty text parses to state `d` named `L`, with every field at its default. */
  lemma ParsesSimpleName(f: string, d: char, l: char, upper: char)
    requires f == [d, '-', l, '.', 't', 'x', 't']
    requires '1' <= d <= '9' && 'a' <= l <= 'z' && upper == UpperChar(l)
    ensures ParseStateFile(TkTool, f, Some(""), map[]) ==
      Some(TkStateInfo(DigitValue(d), f, [upper], [upper], NotAvailable, NotAvailable))
    ensures IsTxt(f)
  {
    assert MatchFileName(f) == Some(FileNameMatch([d], [l])) by {
      assert FileNameShape(f, 1, 3) by {
        assert f[3..7] == ".txt";
      }
      MatchFileNameComplete(f, 1, 3);
      assert f[..1] == [d] && f[2..3] == [l];
    }
    assert ValueOf([d], 10) == DigitValue(d) by {
      assert [d][..0] == [];
    }
    assert StateNameOf([l]) == [upper] by {
      assert ReplaceChar([l], '_', ' ') == [l];
      TitleAt([l], 0);
    }
    assert Search(Owner, "").None? && Search(Manpower, "").None? && Search(NameKey, "").None?;
    assert f[|f| - 4..] == ".txt";
  }
}
