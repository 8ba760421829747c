# State catalogue tools — a verified model

This project models the modding helpers of a Hearts of Iron IV mod. It covers:

- **The state-file listers.** There are two near-identical desktop tools, a
  Tk one (`tools/state_tool.py`) and a PyQt one (`tools/state_tool_pyqt.py`).
  Each reads:
  - the Japanese localisation file (`key: "value"` lines);
  - every `history/states/<id>-<name>.txt` file.

  From each state file it builds a record: id, file name, display name,
  localised name, owner tag and manpower. The PyQt tool adds the province
  ids. The tools then list the records, sort them by a chosen column in
  either direction, and filter them by a five-field search. A row can be
  opened in an editor (and, in the PyQt tool, its provinces can be shown).
- **The cosmetic-tag maker** (`tools/cosmetic_maker.py`). It turns the rows
  of a TSV sheet into two outputs: a `l_japanese:` localisation file and a
  `startup_cosmetic_tag` script.

Modules, in dependency order:

- `Wrappers`: `Option`.
- `PyText`: the `str` methods the tools use. These are `strip`,
  `strip('"')`, `splitlines`, `split`, `lower`, `upper`, `title`,
  `replace`, `in` and `startswith`.
- `PyInt`: `int(s, base)` with Python's grammar (surrounding whitespace,
  sign, `0x` prefix, `_` separators), plus `str(n)` and `"%03X" % n`.
- `StatePatterns`: hand-written scanners for the fixed regular expressions.
  `MatchAt`/`Search` scan. `ShapeAt` and `FileNameShape` describe what
  Python's engine accepts, and lemmas prove the two agree.
- `Localisation`: the localisation loader, which both tools share word for
  word.
- `StateRecords`: the state record, `parse_state_file` and the directory
  scan of `load_state_files`.
- `StateSort`: `list.sort(key=…, reverse=…)`. It is a stable insertion sort,
  used as the reference definition, with its order, permutation, stability
  and uniqueness theory.
- `StateSearch`: the search criteria and the filter.
- `StateToolPyQt`, `StateToolTk`: the two `StateFileLister` classes. Their
  fields are the ones the source updates. `shownRows` stands for the rows
  the tree widget displays.
- `CosmeticMaker`: the two writers. Each is a loop that appends output lines
  and is proved against a specification function. The spec functions get
  shape lemmas and a read-back lemma through the localisation loader.

The code and the tools' own comments agree on everything modelled here.
One exception is the Tk tool's interplay between `__init__` and
`open_state_file_in_vscode`, which is described under "## Findings".

## Model

| member | source | states |
|---|---|---|
| PyText.Strip | tools/state_tool_pyqt.py:51 | `str.strip()`: the result begins and ends with a non-whitespace character (whitespace as `str.isspace` defines it) |
| PyText.StripQuotes | tools/state_tool_pyqt.py:57 | `strip('"')`: the result neither begins nor ends with `"` |
| PyText.TrimByFrame | tools/state_tool_pyqt.py:57 | stripping a text framed by strippable characters gives back the text, when the text is itself stripped |
| PyText.SplitLines | tools/state_tool_pyqt.py:50 | `splitlines()`: no line contains a line break; an empty text has no lines, and only the empty text has none |
| PyText.SplitLinesStep | tools/state_tool.py:31 | `splitlines()` ends the first line at the first boundary, which is `\r\n` or a single line-break character, and splits the rest independently |
| PyText.SplitLinesOne | tools/state_tool.py:31 | a nonempty text with no line break is one line |
| PyText.SplitLinesOfLines | tools/cosmetic_maker.py:16-24 | a file written line by line, each line followed by `\n`, splits back into exactly those lines |
| PyText.LowerIdempotent | tools/state_tool_pyqt.py:230 | lower-casing twice is lower-casing once |
| PyText.LowerOfUpper | tools/state_tool_pyqt.py:230-232 | lower-casing an upper-cased text is lower-casing the text |
| PyText.UpperOfLower | tools/state_tool_pyqt.py:232 | upper-casing a lower-cased text is upper-casing the text |
| PyText.TitleAt | tools/state_tool_pyqt.py:140 | `title()`: a letter is upper-cased when no letter precedes it and lower-cased after a letter; other characters are unchanged |
| PyText.SplitKeepsEveryOtherChar | tools/state_tool_pyqt.py:170 | `split()` pieces are nonempty and contain no whitespace, and together they hold every non-whitespace character of the text, in order |
| PyText.SplitSkipsSpaces | tools/state_tool_pyqt.py:169-170 | leading whitespace does not change `split()` |
| PyText.SplitTrailSpaces | tools/state_tool_pyqt.py:169-170 | trailing whitespace does not change `split()` |
| PyText.SplitOfStrip | tools/state_tool_pyqt.py:169-170 | `s.strip().split()` equals `s.split()` |
| PyText.SplitSpaced | tools/state_tool_pyqt.py:170 | whitespace-free words, with any whitespace runs around and between them (nonempty between), split back into exactly those words, in order |
| PyText.SplitJoinSpaced | tools/state_tool_pyqt.py:170 | `split()` of words joined by single spaces gives the words back |
| PyInt.ParseIntUnsigned | tools/state_tool_pyqt.py:138 | `int(digits)` of a digit string is its value |
| PyInt.ParseIntOfIntToStr | tools/state_tool_pyqt.py:279 | `int(str(n)) == n` for every integer, negative ones included |
| PyInt.NatToDigitsOfValue | tools/state_tool_pyqt.py:238 | `str()` of the value of a digit string without leading zeros is that string |
| PyInt.CanonicalValueInjective | tools/state_tool_pyqt.py:238 | two digit strings without leading zeros that have the same value are equal |
| PyInt.ParseIntOfZeroPadded | tools/state_tool.py:248 | `int(s, 16)` of the zero-padded upper-case hexadecimal rendering of `n` is `n` |
| StatePatterns.MatchFileName | tools/state_tool_pyqt.py:135 | `re.match(r"(\d+)-(.+)\.txt")` succeeds only on the pattern's shape; group 1 is all the leading digits; group 2 runs, newline-free, to the LAST `.txt` it can reach |
| StatePatterns.MatchFileNameComplete | tools/state_tool_pyqt.py:135-137 | whenever the file-name pattern can match, the scanner matches, with the same digit group |
| StatePatterns.MatchAtComplete | tools/state_tool_pyqt.py:151-167 | every match the engine would find at a position (owner `[A-Z]{3}`, greedy manpower `\d+`, lazy name `"(.*?)"`, DOTALL provinces `{(.*?)}`) is found there, with the same group |
| StatePatterns.MatchAtSound | tools/state_tool_pyqt.py:151-167 | every scanner success at a position is a match of the pattern there |
| StatePatterns.SearchLeftmost | tools/state_tool_pyqt.py:151-167 | `re.search` returns the match at the leftmost position that matches |
| StatePatterns.SearchFinds | tools/state_tool_pyqt.py:151-167 | a successful search is a match at a position with no match to its left |
| StatePatterns.SearchNone | tools/state_tool_pyqt.py:151-167 | a failed search means the pattern matches at no position |
| StatePatterns.SearchIsFirstShape | tools/state_tool_pyqt.py:151-167 | stated on the engine's matches alone: the leftmost match gives the group |
| StatePatterns.SearchNoShape | tools/state_tool_pyqt.py:151-167 | no match anywhere gives `None` |
| Localisation.ParseLine | tools/state_tool_pyqt.py:51-57 | A stripped line adds nothing exactly when it starts with `l_japanese:`, has no colon, or starts with `#`. A parsed key contains no colon and has no surrounding whitespace; a parsed value has no surrounding quotes |
| Localisation.ParseLineAt | tools/state_tool.py:32-39 | A line that is neither header nor comment is split at its first colon. The key is the stripped text before the colon; the value is the rest, stripped of whitespace and then of quotes |
| Localisation.TableOfSnoc | tools/state_tool_pyqt.py:50-58 | each further line changes the table by that line's entry alone |
| Localisation.TableKeys | tools/state_tool_pyqt.py:50-58 | a key is in the table exactly when some line defines it |
| Localisation.TableLastWins | tools/state_tool_pyqt.py:58 | for a duplicated key, the last line that defines it gives the value |
| Localisation.LoadLocalisation | tools/state_tool.py:24-42 | the loop fills exactly the table of the file's lines; an unreadable file gives the empty table |
| StateRecords.OwnerOf | tools/state_tool_pyqt.py:142-153 | the owner is "N/A" exactly when no `owner = XYZ` matches; otherwise it is the first match's three upper-case letters |
| StateRecords.ManpowerOf | tools/state_tool_pyqt.py:143-156 | the manpower is "N/A" exactly when no `manpower = N` matches; otherwise it is the first match's digits, a nonempty digit string |
| StateRecords.LocalizedNameChain | tools/state_tool_pyqt.py:157-165 | first `name = "k"` with `k` in the table gives the table's value; with `k` absent it gives `<k not found>`; with no match it gives the name derived from the file name |
| StateRecords.ProvincesOf | tools/state_tool_pyqt.py:146-170 | the ids are nonempty and whitespace-free; no block gives `[]`; otherwise the ids hold exactly the block's non-whitespace characters, in order |
| StateRecords.ProvincesOfSpaced | tools/state_tool_pyqt.py:167-170 | a `provinces = {...}` block whose ids are separated by any whitespace runs (tabs, newlines, several spaces) parses back to those ids |
| StateRecords.SearchProvincesBlock | tools/state_tool_pyqt.py:167 | the lazy `{(.*?)}` group of `provinces = {b}` is all of `b` when `b` has no `}` |
| StateRecords.ProvincesOfBlock | tools/state_tool_pyqt.py:167-170 | `provinces = { a b c }` written from whitespace-free ids with no `}` parses back to those ids |
| StateRecords.ParseStateFile | tools/state_tool_pyqt.py:133-177 | a record exactly when the file name matches and the file is readable; every record is well formed, keeps the file name, is of the tool's own shape, and its id is `int()` of the digit group |
| StateRecords.ToolsAgree | tools/state_tool.py:124-161 | the Tk record is the PyQt record without the provinces; both tools accept the same files |
| StateRecords.ParsedFields | tools/state_tool.py:126-155 | The id digits come before `-`, and the display name is the title-cased name with spaces for underscores. The owner, manpower, localised name and (for the PyQt tool) provinces are those the field readers give. Owner and manpower are the first match or "N/A". The localised name is the table's value, `<k not found>`, or the display name |
| StateRecords.LoadedStatesMembers | tools/state_tool.py:112-119 | a record is loaded exactly when some `.txt` entry of the directory parses to it |
| StateRecords.LoadedStatesWellFormed | tools/state_tool.py:112-119 | every loaded record is well formed and of the loading tool's shape |
| StateRecords.LoadedStatesSnoc | tools/state_tool.py:114-119 | one more directory entry appends its record, if any, at the end: directory order is kept |
| StateSort.ParseSortKey | tools/state_tool_pyqt.py:193-202 | the recognised key names are exactly the five key names; any other name is recognised as no key |
| StateSort.StrLessTotal | tools/state_tool_pyqt.py:196-200 | Python's `str` ordering is a strict total order (with StrLessIrreflexive and StrLessTransitive) |
| StateSort.ManpowerKeyIsInt | tools/state_tool_pyqt.py:202 | the manpower sort key is -1 for "N/A" and the digits' value otherwise |
| StateSort.SortSorted | tools/state_tool_pyqt.py:191-202 | the sorted list has no record strictly preceded by a later record in the chosen direction |
| StateSort.SortPermutation | tools/state_tool_pyqt.py:191-202 | sorting is a permutation |
| StateSort.SortStable | tools/state_tool_pyqt.py:191-202 | records with equal keys keep their original relative order, in both directions |
| StateSort.SortedUnique | tools/state_tool_pyqt.py:191-202 | two sorted lists that list the records of every key value in the same order are equal |
| StateSort.SortCharacterised | tools/state_tool_pyqt.py:191-202 | any sorted list that lists each key value's records in input order is the result of the sort |
| StateSort.SortIdempotent | tools/state_tool_pyqt.py:191-202 | sorting a sorted list changes nothing |
| StateSort.ResortSameKey | tools/state_tool_pyqt.py:220-226 | sorting again by the same key forgets the earlier direction |
| StateSort.DescendingKeepsTies | tools/state_tool_pyqt.py:192-194 | `reverse=True` keeps tied records in order, so it is not the ascending result read backwards |
| StateSort.DescendingIsReversedWhenDistinct | tools/state_tool_pyqt.py:192-194 | when all keys differ, descending order is the ascending result reversed |
| StateSort.SortByNameSpec | tools/state_tool_pyqt.py:191-202 | under a known key name: a sorted, stable permutation; under any other name the list is unchanged |
| StateSort.SortByNameResort | tools/state_tool_pyqt.py:220-226 | the same for key names |
| StateSort.SortByNameKeepsMembers | tools/state_tool.py:173-186 | sorting keeps the list within the loaded records |
| StateSearch.FilterMembers | tools/state_tool_pyqt.py:235-254 | a record is in the result exactly when it is in the list and meets every criterion |
| StateSearch.FilterAppend | tools/state_tool_pyqt.py:236-254 | the result keeps list order: a concatenation filters piecewise |
| StateSearch.BlankSearchShowsAll | tools/state_tool_pyqt.py:229-254 | with every entry empty or blank, the result is the full list |
| StateSearch.FilterIdempotent | tools/state_tool_pyqt.py:235-254 | searching the result again with the same entries changes nothing |
| StateSearch.FilterKeepsMembers | tools/state_tool.py:220-239 | the result holds records of the searched list only |
| StateSearch.IdQuery | tools/state_tool_pyqt.py:229-239 | a non-blank id query matches exactly when it is written without leading zeros and its value is the id |
| StateSearch.ManpowerQueryIgnored | tools/state_tool_pyqt.py:246-251 | a manpower query that `int()` rejects counts as an empty entry |
| StateSearch.ManpowerQuery | tools/state_tool_pyqt.py:233-251 | a numeric query matches exactly the stored digits written without leading zeros with that value; "N/A" never matches |
| StateSearch.OwnerQueryInLowerCase | tools/state_tool_pyqt.py:232-245 | an owner tag typed in lower case finds that owner |
| StateSearch.NameQueryOfPiece | tools/state_tool_pyqt.py:230-243 | any stripped piece of a name, typed in either case, finds the name |
| StateToolPyQt.ColumnKey | tools/state_tool_pyqt.py:219 | Python list indexing: columns -5 to 4 give a key, and always a recognised one; any other column is `IndexError` |
| StateToolPyQt.ColumnKeyWraps | tools/state_tool_pyqt.py:219 | a negative column counts from the end |
| StateToolPyQt.IndexOfId | tools/state_tool_pyqt.py:280 | `next(...)` returns the first record with the id, or `None` when no record has it |
| StateToolPyQt.RowRecordOfShownRow | tools/state_tool_pyqt.py:278-280 | a shown row's first column leads back to a record with that id; with unique ids, to the row's own record |
| StateToolPyQt.OpenShownRow | tools/state_tool_pyqt.py:277-288 | with the tree in sync, opening a shown row opens that row's file |
| StateToolPyQt.StateFileLister.ProvincesToShow | tools/state_tool_pyqt.py:294-303 | the popup finds a record exactly for the rows whose file can be opened; in a valid lister its ids are nonempty and whitespace-free |
| StateToolPyQt.ProvincesOfShownRow | tools/state_tool_pyqt.py:294-303 | in a valid lister with unique ids, the popup of a shown row lists that row's own provinces |
| StateToolPyQt.StateFileLister.constructor | tools/state_tool_pyqt.py:27-42 | ends with the table loaded, key `state_id` ascending, the filtered list reset to all records in directory order and shown |
| StateToolPyQt.StateFileLister.LoadStateFiles | tools/state_tool_pyqt.py:122-131 | the records are those of `LoadedStates`; the filtered list is all of them, sorted by the current key and shown |
| StateToolPyQt.StateFileLister.DisplayStateFiles | tools/state_tool_pyqt.py:179-189 | the tree lists the filtered records, in order; nothing else changes |
| StateToolPyQt.StateFileLister.SortStateFiles | tools/state_tool_pyqt.py:191-204 | the filtered list becomes its sort by the stored key and direction and is shown; the class invariant holds |
| StateToolPyQt.StateFileLister.ChangeSortKey | tools/state_tool_pyqt.py:206-208 | the key becomes the given name and the list is sorted by it |
| StateToolPyQt.StateFileLister.ToggleSortOrder | tools/state_tool_pyqt.py:210-216 | the direction flips and the list is sorted in the new direction |
| StateToolPyQt.StateFileLister.SortByColumn | tools/state_tool_pyqt.py:218-226 | an invalid column raises before anything changes. The same key flips the direction; another key sets it and sorts ascending. Either way the list is sorted by the new key and direction |
| StateToolPyQt.StateFileLister.SearchStateFiles | tools/state_tool_pyqt.py:228-256 | the filtered list becomes the matching loaded records, in load order and unsorted, and is shown |
| StateToolTk.ItemIndexOfItemId | tools/state_tool.py:248 | the item id `I%03X` of `n` converts to index `n - 1` |
| StateToolTk.SelectedFileIn | tools/state_tool.py:245-259 | no selection is reported as such; a file opens exactly when the id parses and its index is within the filtered list, and it is the file of that entry |
| StateToolTk.OpensShownRow | tools/state_tool.py:248-250 | in a list numbered from `I001`, double-clicking row `r` opens that row's file |
| StateToolTk.OpenAfterRefresh | tools/state_tool.py:245-250 | with the tree in sync with the filtered list, double-clicking a row opens that row's file |
| StateToolTk.StateFileLister.constructor | tools/state_tool.py:7-22 | ends with the records loaded and shown sorted by id, while the filtered list is reset to directory order |
| StateToolTk.StateFileLister.Synced | tools/state_tool.py:7-21 | the constructor without the reset: the tree and the filtered list are the same sorted list |
| StateToolTk.StateFileLister.LoadStateFiles | tools/state_tool.py:112-121 | the records are those of `LoadedStates`; the filtered list is all of them, sorted by the current key and shown |
| StateToolTk.StateFileLister.DisplayStateFiles | tools/state_tool.py:164-170 | the tree lists the filtered records, in order; nothing else changes |
| StateToolTk.StateFileLister.SortStateFiles | tools/state_tool.py:173-186 | the filtered list becomes its sort by the stored key and direction and is shown |
| StateToolTk.StateFileLister.ChangeSortKey | tools/state_tool.py:189-191 | the key becomes the combobox text and the list is sorted by it |
| StateToolTk.StateFileLister.ToggleSortOrder | tools/state_tool.py:194-200 | the direction flips and the list is sorted in the new direction |
| StateToolTk.StateFileLister.SortByColumn | tools/state_tool.py:203-210 | the same column flips the direction; a new column becomes the key, ascending; the list is sorted once either way |
| StateToolTk.StateFileLister.SearchStateFiles | tools/state_tool.py:213-242 | the filtered list becomes the matching loaded records, sorted by the current key and direction, and is shown |
| StateToolTk.UnsortedDirLoads | tools/state_tool.py:112-121 | a directory listing `2-b.txt` before `1-a.txt` loads state 2 before state 1 |
| StateToolTk.UnsortedDirSorts | tools/state_tool.py:173-176 | sorting those records by id puts state 1 first |
| StateToolTk.FreshWindowOpensWrongFile | tools/state_tool.py:20-250 | in the fresh window the first row shows `1-a.txt`, but double-clicking it opens `2-b.txt` |
| StateToolTk.ParsesSimpleName | tools/state_tool.py:124-161 | an empty file named `<d>-<l>.txt` gives state `d`, named with `l` upper-cased, with owner and manpower "N/A" |
| CosmeticMaker.CreateLocFile | tools/cosmetic_maker.py:4-24 | the loop writes exactly the lines of `LocLines` |
| CosmeticMaker.LocLinesShape | tools/cosmetic_maker.py:16-24 | the file has 1 + 2k lines for k complete rows: `l_japanese:` first, then for the j-th complete row ` TAG: "text"` followed by ` TAG_DEF: "text"`, in row order |
| CosmeticMaker.LocLineParses | tools/cosmetic_maker.py:23 | the state tools' loader reads ` KEY: "text"` back as `KEY -> text`, for any key without colon, line break or surrounding space that is not `l_japanese` and does not start with `#`, and any one-line text not starting or ending with `"` |
| CosmeticMaker.CoreNotHeader | tools/cosmetic_maker.py:23 | such an entry line is neither the header nor a comment |
| CosmeticMaker.DefKeyOk | tools/cosmetic_maker.py:24 | adding `_DEF` to a readable key keeps it readable |
| CosmeticMaker.LocTableKeys | tools/cosmetic_maker.py:18-24 | the expected table's keys are exactly the cosmetic tags of the complete rows and their `_DEF` variants |
| CosmeticMaker.LocFileReadsBack | tools/cosmetic_maker.py:15-24 | the written file, read back by the state tools' loader, gives the table in which each complete row sets `TAG` and `TAG_DEF` to its text, later rows winning |
| CosmeticMaker.CreateStartupScript | tools/cosmetic_maker.py:26-49 | the loop writes exactly the lines of `ScriptLines` |
| CosmeticMaker.ScriptLinesShape | tools/cosmetic_maker.py:38-49 | the script has 2 + 3k lines for k rows with tag and cosmetic tag: it opens with `startup_cosmetic_tag = {` and closes with `}`, and between them holds each such row's three-line block, in row order |

## Left out

- GUI construction and rendering are not modelled: widgets, column widths, context menus, the province dialog, the order button's label and `main`. What the tree shows is the field `shownRows`, assigned in `DisplayStateFiles`.
- Launching the editor with `os.system` is not modelled, nor is its return code. The model stops at the file name that would be opened.
- The `print` diagnostics are left out.
- The directory listing, file reading and output writing are left out:
  - a directory is a sequence of `DirEntry` values (name and content), in `os.listdir` order as given;
  - a file that cannot be opened or decoded has content `None`;
  - UTF-8 decoding and the byte-order mark of `utf-8-sig` are not modelled;
  - the writers return their lines, each of which the file ends with `\n`.
- StatePatterns: `\d` is ASCII digits only. Python also accepts other Unicode decimal digits, and so does `int()`.
- PyText: `lower`, `upper` and `title` are modelled for ASCII letters only; Python's Unicode case mappings are not.
- The regular-expression engine itself is not modelled. Each of the five fixed patterns is a hand-written scanner, proved against a description of the engine's matches.
- pandas `read_csv` and `notna` are not modelled. A row is three `Option<string>` cells: `None` stands for NaN. pandas' rendering of numeric cells (`1.0`) and its NA spellings are not modelled.
- `StateToolPyQt.StateFileLister.SortByColumn`: the unused `order` argument is not modelled. The PyQt tool never connects this method to a signal.
- `StateToolPyQt.StateFileLister.ChangeSortKey` (tools/state_tool_pyqt.py:206-208) is modelled, but the PyQt tool never connects it either. The sort button sorts by the `sort_key` field, which nothing connected ever changes from `state_id`, so the combo box has no effect.
- StateToolTk.OpenAfterRefresh: assumes the Treeview numbers its rows from `I001`. Tk keeps counting item ids across `delete`/`insert`, so this holds only for the first filling of a tree. After any redisplay, the ids `int(id[1:], 16) - 1` computes are past the rows they label. The item-id counter is Tk's, not the source's, and is not modelled.
- `history/scripts/000_countries.py` is not part of this model: it only reads and rewrites files.
- A province-transfer feature appears in none of the modelled files and is not part of this model.

## Findings

| source | as written | input that shows it | evidently intended | confidence | as-written member | corrected member |
|---|---|---|---|---|---|---|
| tools/state_tool.py:22 | `load_state_files` sorts the filtered list by id and fills the tree. `__init__` then resets the filtered list to `list(self.state_files_info)`, the directory order, and does not refill the tree. A double click converts the row's item id to an index into that unsorted list. | A directory listing `2-b.txt` before `1-a.txt`. The first row shows state 1 (`1-a.txt`); double-clicking it (item `I001`, index 0) opens `2-b.txt`. | The tree and the filtered list stay one and the same sorted list, so a double click opens the row's own file. (The PyQt tool does refill the tree after the same reset, at tools/state_tool_pyqt.py:41-42.) | not executed; high for the fresh window | StateToolTk.FreshWindowOpensWrongFile | StateToolTk.StateFileLister.Synced |
