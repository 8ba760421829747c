/**
 * The PyQt state-file lister: the list of loaded state records, the list the
 * tree widget shows (initially all records, then the search result), the
 * sort key name and direction, and the localisation table. Opening a file
 * and showing its provinces look the record up by the id in the row's
 * first column.
 */
module StateToolPyQt {
  import opened Wrappers
  import opened PyText
  import opened PyInt
  import Localisation
  import opened StateRecords
  import opened StateSort
  import opened StateSearch

  /** The column order of the tree widget and of `sort_by_column`'s key list. */
  const ColumnKeys: seq<string> := ["state_id", "state_name", "localized_name", "owner", "manpower"]

  /** `keys[column]` with Python's indexing: negative columns count from the end; `None` is `IndexError`. */
  function ColumnKey(column: int): (r: Option<string>)
    ensures r.Some? <==> -|ColumnKeys| <= column < |ColumnKeys|
    ensures r.Some? ==> ParseSortKey(r.value).Some?
  {
    if 0 <= column < 5 then Some(ColumnKeys[column])
    else if -5 <= column < 0 then Some(ColumnKeys[column + 5])
    else None
  }

  /** Column `c` and column `c - 5` name the same key. */
  lemma ColumnKeyWraps(c: int)
    requires 0 <= c < 5
    ensures ColumnKey(c - 5) == ColumnKey(c)
  {
  }

  /** The position of the first record with the id, as `next(...)` finds it. */
  function IndexOfId(xs: seq<StateInfo>, id: int): (r: Option<nat>)
    ensures r.Some? ==> r.value < |xs| && xs[r.value].stateId == id
    ensures r.Some? ==> forall j :: 0 <= j < r.value ==> xs[j].stateId != id
    ensures r.None? ==> forall j :: 0 <= j < |xs| ==> xs[j].stateId != id
    decreases |xs|
  {
    if xs == [] then None
    else if xs[0].stateId == id then Some(0)
    else match IndexOfId(xs[1..], id)
      case None => None
      case Some(i) => Some(i + 1)
  }

  /** The record behind a row whose first column reads `text`: `int(text)`, then the first record with that id. */
  function RowRecord(xs: seq<StateInfo>, text: string): Option<StateInfo> {
    match ParseInt(text, 10)
    case None => None
    case Some(id) =>
      match IndexOfId(xs, id)
      case None => None
      case Some(i) => Some(xs[i])
  }

  predicate UniqueIds(xs: seq<StateInfo>) {
    forall i, j :: 0 <= i < j < |xs| ==> xs[i].stateId != xs[j].stateId
  }

  /**
   * The row showing `xs[r]` has `str(state_id)` in its first column and leads
   * back to the first record with that id; with unique ids, to `xs[r]` itself.
   */
  lemma RowRecordOfShownRow(xs: seq<StateInfo>, r: nat)
    requires r < |xs|
    ensures RowRecord(xs, IntToStr(xs[r].stateId)).Some?
    ensures RowRecord(xs, IntToStr(xs[r].stateId)).value.stateId == xs[r].stateId
    ensures UniqueIds(xs) ==> RowRecord(xs, IntToStr(xs[r].stateId)) == Some(xs[r])
  {
    ParseIntOfIntToStr(xs[r].stateId);
  }

  class StateFileLister {
    var stateFilesInfo: seq<StateInfo>
    var filteredStateFilesInfo: seq<StateInfo>
    var sortKey: string
    var sortOrderAscending: bool
    var localisationStrings: Localisation.Table
    /** The records the tree widget currently lists, top to bottom. */
    var shownRows: seq<StateInfo>

    /** The tree shows exactly the filtered list. */
    predicate InSync()
      reads this
    {
      shownRows == filteredStateFilesInfo
    }

    /** Every loaded record is a well-formed PyQt record, and the tree lists loaded records only. */
    predicate Valid()
      reads this
    {
      && (forall x :: x in stateFilesInfo ==> WellFormed(x) && x.QtStateInfo?)
      && (forall x :: x in filteredStateFilesInfo ==> x in stateFilesInfo)
      && InSync()
    }

    /**
     * `__init__`: load the table, load and sort the records, then reset the
     * filtered list to ALL records in directory order and show that.
     */
    constructor (localisation: Option<string>, dir: seq<DirEntry>)
      ensures localisation.None? ==> localisationStrings == map[]
      ensures localisation.Some? ==> localisationStrings == Localisation.TableOf(SplitLines(localisation.value))
      ensures sortKey == "state_id" && sortOrderAscending
      ensures stateFilesInfo == LoadedStates(QtTool, dir, localisationStrings)
      ensures filteredStateFilesInfo == stateFilesInfo
      ensures Valid()
    {
      stateFilesInfo := [];
      filteredStateFilesInfo := [];
      sortKey := "state_id";
      sortOrderAscending := true;
      shownRows := [];
      var table := Localisation.LoadLocalisation(localisation);
      localisationStrings := table;
      new;
      LoadStateFiles(dir);
      filteredStateFilesInfo := stateFilesInfo;
      DisplayStateFiles();
    }

    /** `load_state_files`: parse every `.txt` entry in directory order, keep those that parse, then sort. */
    method LoadStateFiles(dir: seq<DirEntry>)
      modifies this
      ensures stateFilesInfo == LoadedStates(QtTool, dir, localisationStrings)
      ensures filteredStateFilesInfo == SortByName(stateFilesInfo, sortKey, sortOrderAscending)
      ensures Valid()
      ensures sortKey == old(sortKey) && sortOrderAscending == old(sortOrderAscending)
      ensures localisationStrings == old(localisationStrings)
    {
      stateFilesInfo := [];
      for i := 0 to |dir|
        invariant stateFilesInfo == LoadedStates(QtTool, dir[..i], localisationStrings)
        invariant sortKey == old(sortKey) && sortOrderAscending == old(sortOrderAscending)
        invariant localisationStrings == old(localisationStrings)
      {
        var e := dir[i];
        LoadedStatesSnoc(QtTool, dir[..i], e, localisationStrings);
        assert dir[..i + 1] == dir[..i] + [e];
        if IsTxt(e.name) {
          var info := ParseStateFile(QtTool, e.name, e.content, localisationStrings);
          if info.Some? {
            stateFilesInfo := stateFilesInfo + [info.value];
          }
        }
      }
      assert dir[..|dir|] == dir;
      filteredStateFilesInfo := stateFilesInfo;
      forall x | x in stateFilesInfo ensures WellFormed(x) && x.QtStateInfo? {
        LoadedStatesWellFormed(QtTool, dir, localisationStrings, x);
      }
      SortStateFiles();
    }

    /** `display_state_files`: the tree lists the filtered records. */
    method DisplayStateFiles()
      modifies this
      ensures shownRows == filteredStateFilesInfo
      ensures filteredStateFilesInfo == old(filteredStateFilesInfo) && stateFilesInfo == old(stateFilesInfo)
      ensures sortKey == old(sortKey) && sortOrderAscending == old(sortOrderAscending)
      ensures localisationStrings == old(localisationStrings)
    {
      shownRows := filteredStateFilesInfo;
    }

    /** `sort_state_files`: sort the filtered list by the stored key and direction, and show it. */
    method SortStateFiles()
      modifies this
      requires forall x :: x in filteredStateFilesInfo ==> x in stateFilesInfo
      requires forall x :: x in stateFilesInfo ==> WellFormed(x) && x.QtStateInfo?
      ensures filteredStateFilesInfo == SortByName(old(filteredStateFilesInfo), sortKey, sortOrderAscending)
      ensures Valid()
      ensures stateFilesInfo == old(stateFilesInfo)
      ensures sortKey == old(sortKey) && sortOrderAscending == old(sortOrderAscending)
      ensures localisationStrings == old(localisationStrings)
    {
      var reverseOrder := !sortOrderAscending;
      var key := ParseSortKey(sortKey);
      if key.Some? {
        filteredStateFilesInfo := Sort(filteredStateFilesInfo, key.value, !reverseOrder);
      }
      SortByNameKeepsMembers(old(filteredStateFilesInfo), sortKey, sortOrderAscending, stateFilesInfo);
      DisplayStateFiles();
    }

    /** `change_sort_key`. */
    method ChangeSortKey(key: string)
      modifies this
      requires Valid()
      ensures Valid()
      ensures sortKey == key && sortOrderAscending == old(sortOrderAscending)
      ensures filteredStateFilesInfo == SortByName(old(filteredStateFilesInfo), key, sortOrderAscending)
      ensures InSync()
      ensures stateFilesInfo == old(stateFilesInfo) && localisationStrings == old(localisationStrings)
    {
      sortKey := key;
      SortStateFiles();
    }

    /** `toggle_sort_order`: flip the direction and sort. */
    method ToggleSortOrder()
      modifies this
      requires Valid()
      ensures Valid()
      ensures sortOrderAscending == !old(sortOrderAscending) && sortKey == old(sortKey)
      ensures filteredStateFilesInfo == SortByName(old(filteredStateFilesInfo), sortKey, sortOrderAscending)
      ensures InSync()
      ensures stateFilesInfo == old(stateFilesInfo) && localisationStrings == old(localisationStrings)
    {
      sortOrderAscending := !sortOrderAscending;
      SortStateFiles();
    }

    /**
     * `sort_by_column`: the same column again flips the direction (and the
     * list is then sorted a second time, which changes nothing); another
     * column sorts ascending by it. A column outside the key list raises
     * `IndexError` before anything changes.
     */
    method SortByColumn(column: int) returns (indexError: bool)
      modifies this
      requires Valid()
      ensures Valid()
      ensures indexError <==> ColumnKey(column).None?
      ensures indexError ==> sortKey == old(sortKey) && sortOrderAscending == old(sortOrderAscending)
      ensures indexError ==> filteredStateFilesInfo == old(filteredStateFilesInfo) && shownRows == old(shownRows)
      ensures !indexError ==> sortKey == ColumnKey(column).value && InSync()
      ensures !indexError ==> sortOrderAscending == (if old(sortKey) == sortKey then !old(sortOrderAscending) else true)
      ensures !indexError ==> filteredStateFilesInfo == SortByName(old(filteredStateFilesInfo), sortKey, sortOrderAscending)
      ensures stateFilesInfo == old(stateFilesInfo) && localisationStrings == old(localisationStrings)
    {
      var key := ColumnKey(column);
      if key.None? {
        return true;
      }
      indexError := false;
      var before := filteredStateFilesInfo;
      if sortKey == key.value {
        ToggleSortOrder();
        SortByNameResort(before, sortKey, sortOrderAscending, sortOrderAscending);
      } else {
        sortKey := key.value;
        sortOrderAscending := true;
      }
      SortStateFiles();
    }

    /** `search_state_files`: keep the loaded records that match, in load order, and show them unsorted. */
    method SearchStateFiles(q: SearchInput)
      modifies this
      requires Valid()
      ensures Valid()
      ensures filteredStateFilesInfo == Filter(stateFilesInfo, q)
      ensures InSync()
      ensures stateFilesInfo == old(stateFilesInfo) && localisationStrings == old(localisationStrings)
      ensures sortKey == old(sortKey) && sortOrderAscending == old(sortOrderAscending)
    {
      var all := stateFilesInfo;
      filteredStateFilesInfo := [];
      for i := 0 to |all|
        invariant filteredStateFilesInfo == Filter(all[..i], q)
        invariant stateFilesInfo == old(stateFilesInfo) && localisationStrings == old(localisationStrings)
        invariant sortKey == old(sortKey) && sortOrderAscending == old(sortOrderAscending)
      {
        var stateInfo := all[i];
        assert all[..i + 1][..i] == all[..i];
        if Matches(q, stateInfo) {
          filteredStateFilesInfo := filteredStateFilesInfo + [stateInfo];
        }
      }
      assert all[..|all|] == all;
      FilterKeepsMembers(all, q);
      DisplayStateFiles();
    }

    /** `open_state_file_in_vscode`: the file name of the row's record, or `None` ("Invalid item index."). */
    function FileToOpen(itemText: string): Option<string>
      reads this
    {
      match RowRecord(filteredStateFilesInfo, itemText)
      case None => None
      case Some(x) => Some(x.filename)
    }

    /** `show_province_list_popup`: the province ids of the row's record. */
    function ProvincesToShow(itemText: string): (r: Option<seq<string>>)
      reads this
      ensures r.Some? <==> FileToOpen(itemText).Some?
      ensures r.Some? && Valid() ==> ProvinceIdsOk(r.value)
    {
      match RowRecord(filteredStateFilesInfo, itemText)
      case None => None
      case Some(x) => if x.QtStateInfo? then Some(x.provinces) else Some([])
    }
  }

  /** The popup of the shown row `r` lists that row's own provinces when the ids are unique. */
  lemma ProvincesOfShownRow(l: StateFileLister, r: nat)
    requires l.Valid() && r < |l.shownRows| && UniqueIds(l.shownRows)
    ensures l.shownRows[r].QtStateInfo?
    ensures l.ProvincesToShow(IntToStr(l.shownRows[r].stateId)) == Some(l.shownRows[r].provinces)
  {
    assert l.shownRows[r] in l.filteredStateFilesInfo;
    RowRecordOfShownRow(l.filteredStateFilesInfo, r);
  }

  /** Opening the shown row `r` opens that row's own file when the ids are unique. */
  lemma OpenShownRow(l: StateFileLister, r: nat)
    requires l.InSync() && r < |l.shownRows| && UniqueIds(l.shownRows)
    ensures l.FileToOpen(IntToStr(l.shownRows[r].stateId)) == Some(l.shownRows[r].filename)
  {
    RowRecordOfShownRow(l.filteredStateFilesInfo, r);
  }
}
