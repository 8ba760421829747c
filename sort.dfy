/**
 * The ordering both tools apply with `list.sort(key=..., reverse=...)`.
 *
 * Python's sort is stable, and with `reverse=True` it sorts as if each
 * comparison were reversed, still keeping records with equal keys in their
 * original order (it is not the ascending result read backwards). `Sort`
 * below is a reference definition with exactly that behaviour: an insertion
 * sort that puts each record before the first record it strictly precedes.
 */
module StateSort {
  import opened Wrappers
  import opened PyInt
  import opened StateRecords

  /** The five keys the sort combobox and the column headings offer. */
  datatype SortKey = ById | ByStateName | ByLocalizedName | ByOwner | ByManpower

  /** The key name the tools store in `sort_key`. */
  function KeyName(k: SortKey): string {
    match k
    case ById => "state_id"
    case ByStateName => "state_name"
    case ByLocalizedName => "localized_name"
    case ByOwner => "owner"
    case ByManpower => "manpower"
  }

  /** The `if/elif` chain of `sort_state_files`: any other name sorts nothing. */
  function ParseSortKey(name: string): (r: Option<SortKey>)
    ensures r.Some? ==> KeyName(r.value) == name
    ensures r.None? ==> forall k: SortKey :: KeyName(k) != name
  {
    if name == "state_id" then Some(ById)
    else if name == "state_name" then Some(ByStateName)
    else if name == "localized_name" then Some(ByLocalizedName)
    else if name == "owner" then Some(ByOwner)
    else if name == "manpower" then Some(ByManpower)
    else None
  }

  lemma ParseKeyName(k: SortKey)
    ensures ParseSortKey(KeyName(k)) == Some(k)
  {
  }

  // ---------------------------------------------------------------------------
  // Key values and their order

  /** What a key lambda returns: an `int` or a `str`. */
  datatype SortValue = IntValue(i: int) | StrValue(s: string)

  /** Python's `<` on `str`: code-point lexicographic order. */
  predicate StrLess(a: string, b: string)
    decreases |a|
  {
    if a == [] then b != []
    else if b == [] then false
    else if a[0] != b[0] then a[0] < b[0]
    else StrLess(a[1..], b[1..])
  }

  lemma {:induction false} StrLessIrreflexive(a: string)
    ensures !StrLess(a, a)
    decreases |a|
  {
    if a != [] { StrLessIrreflexive(a[1..]); }
  }

  lemma {:induction false} StrLessTransitive(a: string, b: string, c: string)
    requires StrLess(a, b) && StrLess(b, c)
    ensures StrLess(a, c)
    decreases |a|
  {
    if a != [] && b != [] && c != [] && a[0] == b[0] && b[0] == c[0] {
      StrLessTransitive(a[1..], b[1..], c[1..]);
    }
  }

  lemma {:induction false} StrLessTotal(a: string, b: string)
    requires a != b
    ensures StrLess(a, b) || StrLess(b, a)
    decreases |a|
  {
    if a != [] && b != [] && a[0] == b[0] {
      assert a == [a[0]] + a[1..] && b == [b[0]] + b[1..];
      StrLessTotal(a[1..], b[1..]);
    }
  }

  /** `<` on key values; every key produces values of one kind only. */
  predicate Less(u: SortValue, v: SortValue) {
    match (u, v)
    case (IntValue(x), IntValue(y)) => x < y
    case (StrValue(x), StrValue(y)) => StrLess(x, y)
    case (IntValue(_), StrValue(_)) => true
    case (StrValue(_), IntValue(_)) => false
  }

  lemma LessIrreflexive(u: SortValue)
    ensures !Less(u, u)
  {
    if u.StrValue? { StrLessIrreflexive(u.s); }
  }

  lemma LessTransitive(u: SortValue, v: SortValue, w: SortValue)
    requires Less(u, v) && Less(v, w)
    ensures Less(u, w)
  {
    if u.StrValue? && v.StrValue? && w.StrValue? { StrLessTransitive(u.s, v.s, w.s); }
  }

  lemma LessTotal(u: SortValue, v: SortValue)
    requires u != v
    ensures Less(u, v) || Less(v, u)
  {
    if u.StrValue? && v.StrValue? { StrLessTotal(u.s, v.s); }
  }

  /** The manpower key: `int(manpower)`, or -1 for "N/A". */
  function ManpowerKey(manpower: string): int {
    if manpower == NotAvailable then -1 else ValueOf(manpower, 10)
  }

  /** On the values the parser stores, the manpower key is exactly what `int()` gives, and -1 only for "N/A". */
  lemma ManpowerKeyIsInt(manpower: string)
    requires ManpowerOk(manpower)
    ensures manpower == NotAvailable <==> ManpowerKey(manpower) == -1
    ensures manpower != NotAvailable ==> ParseInt(manpower, 10) == Some(ManpowerKey(manpower))
  {
    if manpower != NotAvailable {
      ParseIntUnsigned(manpower, 10);
    }
  }

  /** The value the sort key's lambda gives a record. */
  function KeyOf(k: SortKey, x: StateInfo): SortValue {
    match k
    case ById => IntValue(x.stateId)
    case ByStateName => StrValue(x.stateName)
    case ByLocalizedName => StrValue(x.localizedName)
    case ByOwner => StrValue(x.owner)
    case ByManpower => IntValue(ManpowerKey(x.manpower))
  }

  /** `x` goes strictly before `y` in the requested direction. */
  predicate Precedes(k: SortKey, ascending: bool, x: StateInfo, y: StateInfo) {
    if ascending then Less(KeyOf(k, x), KeyOf(k, y)) else Less(KeyOf(k, y), KeyOf(k, x))
  }

  /** No record is strictly preceded by a record after it. */
  predicate Sorted(xs: seq<StateInfo>, k: SortKey, ascending: bool) {
    forall i, j :: 0 <= i < j < |xs| ==> !Precedes(k, ascending, xs[j], xs[i])
  }

  // ---------------------------------------------------------------------------
  // The reference sort

  /** Put `x` before the first record it strictly precedes. */
  function Insert(xs: seq<StateInfo>, x: StateInfo, k: SortKey, ascending: bool): (r: seq<StateInfo>)
    ensures |r| == |xs| + 1
    ensures multiset(r) == multiset(xs) + multiset{x}
  {
    if xs == [] then [x]
    else if Precedes(k, ascending, x, xs[0]) then [x] + xs
    else
      assert xs == [xs[0]] + xs[1..];
      [xs[0]] + Insert(xs[1..], x, k, ascending)
  }

  /** `xs.sort(key=..., reverse=not ascending)`. */
  function Sort(xs: seq<StateInfo>, k: SortKey, ascending: bool): (r: seq<StateInfo>)
    ensures |r| == |xs|
    decreases |xs|
  {
    if xs == [] then [] else Insert(Sort(xs[..|xs| - 1], k, ascending), xs[|xs| - 1], k, ascending)
  }

  /** `sort_state_files` on the list under the stored key name: an unknown name leaves it as it is. */
  function SortByName(xs: seq<StateInfo>, name: string, ascending: bool): seq<StateInfo> {
    match ParseSortKey(name)
    case None => xs
    case Some(k) => Sort(xs, k, ascending)
  }

  // ---------------------------------------------------------------------------
  // What the sort guarantees

  lemma {:induction false} InsertSorted(xs: seq<StateInfo>, x: StateInfo, k: SortKey, ascending: bool)
    requires Sorted(xs, k, ascending)
    ensures Sorted(Insert(xs, x, k, ascending), k, ascending)
    decreases |xs|
  {
    if xs == [] {
    } else if !Precedes(k, ascending, x, xs[0]) {
      var t := Insert(xs[1..], x, k, ascending);
      SortedTail(xs, k, ascending);
      InsertSorted(xs[1..], x, k, ascending);
      InsertPast(xs, x, k, ascending);
      HeadStaysFirst(xs, x, k, ascending);
      ConsSorted(xs[0], t, k, ascending);
    } else {
      forall j | 0 <= j < |xs| ensures !Precedes(k, ascending, xs[j], x) {
        LessIrreflexive(KeyOf(k, xs[0]));
        NotPrecedesChain(k, ascending, xs[j], xs[0], x);
      }
      ConsSorted(x, xs, k, ascending);
    }
  }

  /** A record that no record of a sorted list strictly precedes can go in front of it. */
  lemma ConsSorted(h: StateInfo, t: seq<StateInfo>, k: SortKey, ascending: bool)
    requires Sorted(t, k, ascending)
    requires forall j :: 0 <= j < |t| ==> !Precedes(k, ascending, t[j], h)
    ensures Sorted([h] + t, k, ascending)
  {
    var r := [h] + t;
    forall i, j | 0 <= i < j < |r| ensures !Precedes(k, ascending, r[j], r[i]) {
      assert r[j] == t[j - 1];
      if i > 0 { assert r[i] == t[i - 1]; }
    }
  }

  /** Inserting past the head leaves only records the head may stay in front of. */
  lemma HeadStaysFirst(xs: seq<StateInfo>, x: StateInfo, k: SortKey, ascending: bool)
    requires xs != [] && Sorted(xs, k, ascending) && !Precedes(k, ascending, x, xs[0])
    ensures forall j :: 0 <= j < |xs| ==> !Precedes(k, ascending, Insert(xs[1..], x, k, ascending)[j], xs[0])
  {
    var t := Insert(xs[1..], x, k, ascending);
    forall j | 0 <= j < |t| ensures !Precedes(k, ascending, t[j], xs[0]) {
      assert t[j] in multiset(t);
      assert t[j] in multiset(xs[1..]) + multiset{x};
      if t[j] != x {
        assert t[j] in xs[1..];
        var m :| 0 <= m < |xs[1..]| && xs[1..][m] == t[j];
        assert xs[m + 1] == t[j];
      }
    }
  }

  /** If `x` strictly precedes `y` and `z` does not strictly precede `y`, `z` does not strictly precede `x`. */
  lemma NotPrecedesChain(k: SortKey, ascending: bool, z: StateInfo, y: StateInfo, x: StateInfo)
    requires Precedes(k, ascending, x, y) && !Precedes(k, ascending, z, y)
    ensures !Precedes(k, ascending, z, x)
  {
    var u, v, w := KeyOf(k, x), KeyOf(k, y), KeyOf(k, z);
    if Precedes(k, ascending, z, x) {
      if ascending { LessTransitive(w, u, v); } else { LessTransitive(v, u, w); }
    }
  }

  /** The result is in order. */
  lemma {:induction false} SortSorted(xs: seq<StateInfo>, k: SortKey, ascending: bool)
    ensures Sorted(Sort(xs, k, ascending), k, ascending)
    decreases |xs|
  {
    if xs != [] {
      SortSorted(xs[..|xs| - 1], k, ascending);
      InsertSorted(Sort(xs[..|xs| - 1], k, ascending), xs[|xs| - 1], k, ascending);
    }
  }

  /** The result is a permutation of the input. */
  lemma {:induction false} SortPermutation(xs: seq<StateInfo>, k: SortKey, ascending: bool)
    ensures multiset(Sort(xs, k, ascending)) == multiset(xs)
    decreases |xs|
  {
    if xs != [] {
      var front := xs[..|xs| - 1];
      SortPermutation(front, k, ascending);
      assert xs == front + [xs[|xs| - 1]];
    }
  }

  /** `[x]` when `x` has the key value `v`, else nothing. */
  function Tagged(x: StateInfo, k: SortKey, v: SortValue): seq<StateInfo> {
    if KeyOf(k, x) == v then [x] else []
  }

  /** The records whose key value is `v`, in order. */
  function WithKey(xs: seq<StateInfo>, k: SortKey, v: SortValue): (r: seq<StateInfo>)
    ensures |r| <= |xs|
    decreases |xs|
  {
    if xs == [] then []
    else WithKey(xs[..|xs| - 1], k, v) + Tagged(xs[|xs| - 1], k, v)
  }

  lemma {:induction false} WithKeyAppend(a: seq<StateInfo>, b: seq<StateInfo>, k: SortKey, v: SortValue)
    ensures WithKey(a + b, k, v) == WithKey(a, k, v) + WithKey(b, k, v)
    decreases |b|
  {
    if b == [] {
      assert a + b == a;
    } else {
      var b', y := b[..|b| - 1], b[|b| - 1];
      assert b == b' + [y];
      assert a + b == (a + b') + [y];
      WithKeyAppend(a, b', k, v);
      WithKeySnoc(a + b', y, k, v);
      WithKeySnoc(b', y, k, v);
      AppendAssoc(WithKey(a, k, v), WithKey(b', k, v), Tagged(y, k, v));
    }
  }

  lemma WithKeySnoc(xs: seq<StateInfo>, y: StateInfo, k: SortKey, v: SortValue)
    ensures WithKey(xs + [y], k, v) == WithKey(xs, k, v) + Tagged(y, k, v)
  {
    assert (xs + [y])[..|xs|] == xs;
  }

  lemma WithKeyCons(x: StateInfo, xs: seq<StateInfo>, k: SortKey, v: SortValue)
    ensures WithKey([x] + xs, k, v) == Tagged(x, k, v) + WithKey(xs, k, v)
  {
    var none: seq<StateInfo> := [];
    WithKeyAppend([x], xs, k, v);
    WithKeySnoc(none, x, k, v);
    assert none + [x] == [x];
    assert WithKey(none, k, v) + Tagged(x, k, v) == Tagged(x, k, v);
  }

  /** No record with the key value `v`, nothing selected. */
  lemma {:induction false} WithKeyNone(xs: seq<StateInfo>, k: SortKey, v: SortValue)
    requires forall i :: 0 <= i < |xs| ==> KeyOf(k, xs[i]) != v
    ensures WithKey(xs, k, v) == []
    decreases |xs|
  {
    if xs != [] { WithKeyNone(xs[..|xs| - 1], k, v); }
  }

  /**
   * Inserting `x` into a sorted list adds `x` after every record with the
   * same key: the records of each key value keep their order, the new one last.
   */
  lemma {:induction false} InsertWithKey(xs: seq<StateInfo>, x: StateInfo, k: SortKey, ascending: bool, v: SortValue)
    requires Sorted(xs, k, ascending)
    ensures WithKey(Insert(xs, x, k, ascending), k, v) == WithKey(xs, k, v) + Tagged(x, k, v)
    decreases |xs|
  {
    if xs == [] {
      WithKeyCons(x, [], k, v);
    } else if Precedes(k, ascending, x, xs[0]) {
      InsertFrontWithKey(xs, x, k, ascending, v);
    } else {
      SortedTail(xs, k, ascending);
      InsertWithKey(xs[1..], x, k, ascending, v);
      InsertPastWithKey(xs, x, k, ascending, v);
    }
  }

  /** The step past the head: the head's own contribution stays in front. */
  lemma InsertPastWithKey(xs: seq<StateInfo>, x: StateInfo, k: SortKey, ascending: bool, v: SortValue)
    requires xs != [] && !Precedes(k, ascending, x, xs[0])
    requires WithKey(Insert(xs[1..], x, k, ascending), k, v) == WithKey(xs[1..], k, v) + Tagged(x, k, v)
    ensures WithKey(Insert(xs, x, k, ascending), k, v) == WithKey(xs, k, v) + Tagged(x, k, v)
  {
    var h, tl := xs[0], xs[1..];
    var t := Insert(tl, x, k, ascending);
    InsertPast(xs, x, k, ascending);
    WithKeyCons(h, t, k, v);
    WithKeyCons(h, tl, k, v);
    SplitHead(xs);
    AppendAssoc(Tagged(h, k, v), WithKey(tl, k, v), Tagged(x, k, v));
  }

  lemma InsertPast(xs: seq<StateInfo>, x: StateInfo, k: SortKey, ascending: bool)
    requires xs != [] && !Precedes(k, ascending, x, xs[0])
    ensures Insert(xs, x, k, ascending) == [xs[0]] + Insert(xs[1..], x, k, ascending)
  {
  }

  lemma SplitHead(xs: seq<StateInfo>)
    requires xs != []
    ensures [xs[0]] + xs[1..] == xs
  {
  }

  lemma AppendAssoc(a: seq<StateInfo>, b: seq<StateInfo>, c: seq<StateInfo>)
    ensures a + (b + c) == (a + b) + c
  {
  }

  lemma SortedTail(xs: seq<StateInfo>, k: SortKey, ascending: bool)
    requires xs != [] && Sorted(xs, k, ascending)
    ensures Sorted(xs[1..], k, ascending)
  {
    forall i, j | 0 <= i < j < |xs[1..]| ensures !Precedes(k, ascending, xs[1..][j], xs[1..][i]) {
      assert xs[1..][j] == xs[j + 1] && xs[1..][i] == xs[i + 1];
    }
  }

  /** A record that goes before the head of a sorted list shares its key with none of it. */
  lemma InsertFrontWithKey(xs: seq<StateInfo>, x: StateInfo, k: SortKey, ascending: bool, v: SortValue)
    requires Sorted(xs, k, ascending) && xs != [] && Precedes(k, ascending, x, xs[0])
    ensures WithKey([x] + xs, k, v) == WithKey(xs, k, v) + Tagged(x, k, v)
  {
    WithKeyCons(x, xs, k, v);
    if KeyOf(k, x) == v {
      LessIrreflexive(KeyOf(k, x));
      forall i | 0 <= i < |xs| ensures KeyOf(k, xs[i]) != v {
        if i > 0 { assert !Precedes(k, ascending, xs[i], xs[0]); }
      }
      WithKeyNone(xs, k, v);
    } else {
      assert [] + WithKey(xs, k, v) == WithKey(xs, k, v) + [];
    }
  }

  /** Stability: the records of each key value come out in their input order. */
  lemma {:induction false} SortStable(xs: seq<StateInfo>, k: SortKey, ascending: bool, v: SortValue)
    ensures WithKey(Sort(xs, k, ascending), k, v) == WithKey(xs, k, v)
    decreases |xs|
  {
    if xs != [] {
      var front := xs[..|xs| - 1];
      SortStable(front, k, ascending, v);
      SortSorted(front, k, ascending);
      InsertWithKey(Sort(front, k, ascending), xs[|xs| - 1], k, ascending, v);
    }
  }

  // ---------------------------------------------------------------------------
  // There is only one stable sort

  lemma WithKeyMember(xs: seq<StateInfo>, k: SortKey, v: SortValue, y: StateInfo) returns (i: nat)
    requires y in WithKey(xs, k, v)
    ensures i < |xs| && xs[i] == y && KeyOf(k, y) == v
    decreases |xs|
  {
    var front := xs[..|xs| - 1];
    if y in WithKey(front, k, v) {
      i := WithKeyMember(front, k, v, y);
    } else {
      i := |xs| - 1;
    }
  }

  lemma SortedFront(xs: seq<StateInfo>, k: SortKey, ascending: bool)
    requires xs != [] && Sorted(xs, k, ascending)
    ensures Sorted(xs[..|xs| - 1], k, ascending)
  {
    var f := xs[..|xs| - 1];
    forall i, j | 0 <= i < j < |f| ensures !Precedes(k, ascending, f[j], f[i]) {
      assert f[j] == xs[j] && f[i] == xs[i];
    }
  }

  /** The last record of a sorted list is not strictly preceded by any record of the list. */
  lemma LastNotPreceded(r: seq<StateInfo>, k: SortKey, ascending: bool, y: StateInfo, v: SortValue)
    requires r != [] && Sorted(r, k, ascending) && y in WithKey(r, k, v)
    ensures !Precedes(k, ascending, r[|r| - 1], y)
  {
    var i := WithKeyMember(r, k, v, y);
    LessIrreflexive(KeyOf(k, y));
  }

  lemma WithKeyOfLast(xs: seq<StateInfo>, k: SortKey)
    requires xs != []
    ensures WithKey(xs, k, KeyOf(k, xs[|xs| - 1])) != []
  {
  }

  /** Two sorted lists that agree on the records of every key value are equal. */
  lemma {:induction false} SortedUnique(r1: seq<StateInfo>, r2: seq<StateInfo>, k: SortKey, ascending: bool)
    requires Sorted(r1, k, ascending) && Sorted(r2, k, ascending)
    requires forall v :: WithKey(r1, k, v) == WithKey(r2, k, v)
    ensures r1 == r2
    decreases |r1| + |r2|
  {
    if r1 == [] && r2 == [] {
    } else if r1 == [] {
      WithKeyOfLast(r2, k);
      assert false;
    } else if r2 == [] {
      WithKeyOfLast(r1, k);
      assert false;
    } else {
      var f1, f2 := r1[..|r1| - 1], r2[..|r2| - 1];
      SameLast(r1, r2, f1, f2, k, ascending);
      SortedFront(r1, k, ascending);
      SortedFront(r2, k, ascending);
      SortedUnique(f1, f2, k, ascending);
      assert r1 == f1 + [r1[|r1| - 1]] && r2 == f2 + [r2[|r2| - 1]];
    }
  }

  /** Such lists end with the same record, and agree on every key value without it. */
  lemma SameLast(r1: seq<StateInfo>, r2: seq<StateInfo>, f1: seq<StateInfo>, f2: seq<StateInfo>, k: SortKey, ascending: bool)
    requires r1 != [] && r2 != [] && f1 == r1[..|r1| - 1] && f2 == r2[..|r2| - 1]
    requires Sorted(r1, k, ascending) && Sorted(r2, k, ascending)
    requires forall v :: WithKey(r1, k, v) == WithKey(r2, k, v)
    ensures r1[|r1| - 1] == r2[|r2| - 1]
    ensures forall w :: WithKey(f1, k, w) == WithKey(f2, k, w)
  {
    var a, b := r1[|r1| - 1], r2[|r2| - 1];
    SameLastKey(r1, r2, k, ascending);
    var u := KeyOf(k, a);
    var s1 := WithKey(r1, k, u);
    assert WithKey(r2, k, u) == s1;
    assert s1 == WithKey(f1, k, u) + [a];
    assert s1 == WithKey(f2, k, u) + [b];
    assert s1[|s1| - 1] == a && s1[|s1| - 1] == b;
    forall w ensures WithKey(f1, k, w) == WithKey(f2, k, w) {
      if w == u {
        assert WithKey(f1, k, u) == s1[..|s1| - 1];
        assert WithKey(f2, k, u) == s1[..|s1| - 1];
      } else {
        assert WithKey(r1, k, w) == WithKey(f1, k, w);
        assert WithKey(r2, k, w) == WithKey(f2, k, w);
      }
    }
  }

  lemma SameLastKey(r1: seq<StateInfo>, r2: seq<StateInfo>, k: SortKey, ascending: bool)
    requires r1 != [] && r2 != []
    requires Sorted(r1, k, ascending) && Sorted(r2, k, ascending)
    requires forall v :: WithKey(r1, k, v) == WithKey(r2, k, v)
    ensures KeyOf(k, r1[|r1| - 1]) == KeyOf(k, r2[|r2| - 1])
  {
    var a, b := r1[|r1| - 1], r2[|r2| - 1];
    assert a in WithKey(r1, k, KeyOf(k, a));
    assert b in WithKey(r2, k, KeyOf(k, b));
    LastNotPreceded(r1, k, ascending, b, KeyOf(k, b));
    LastNotPreceded(r2, k, ascending, a, KeyOf(k, a));
    if KeyOf(k, a) != KeyOf(k, b) {
      LessTotal(KeyOf(k, a), KeyOf(k, b));
    }
  }

  /** `Sort` is the one sorted arrangement that keeps each key value's records in input order. */
  lemma SortCharacterised(xs: seq<StateInfo>, r: seq<StateInfo>, k: SortKey, ascending: bool)
    requires Sorted(r, k, ascending)
    requires forall v :: WithKey(r, k, v) == WithKey(xs, k, v)
    ensures r == Sort(xs, k, ascending)
  {
    SortSorted(xs, k, ascending);
    forall v ensures WithKey(r, k, v) == WithKey(Sort(xs, k, ascending), k, v) {
      SortStable(xs, k, ascending, v);
    }
    SortedUnique(r, Sort(xs, k, ascending), k, ascending);
  }

  /** A list already in order is left as it is. */
  lemma SortOfSorted(xs: seq<StateInfo>, k: SortKey, ascending: bool)
    requires Sorted(xs, k, ascending)
    ensures Sort(xs, k, ascending) == xs
  {
    SortCharacterised(xs, xs, k, ascending);
  }

  /** Sorting twice by the same key and direction is sorting once. */
  lemma SortIdempotent(xs: seq<StateInfo>, k: SortKey, ascending: bool)
    ensures Sort(Sort(xs, k, ascending), k, ascending) == Sort(xs, k, ascending)
  {
    SortSorted(xs, k, ascending);
    SortOfSorted(Sort(xs, k, ascending), k, ascending);
  }

  /**
   * Re-sorting by the same key in any direction forgets the earlier
   * direction: ties are still in input order.
   */
  lemma ResortSameKey(xs: seq<StateInfo>, k: SortKey, before: bool, ascending: bool)
    ensures Sort(Sort(xs, k, before), k, ascending) == Sort(xs, k, ascending)
  {
    var ys := Sort(xs, k, before);
    SortSorted(ys, k, ascending);
    forall v ensures WithKey(Sort(ys, k, ascending), k, v) == WithKey(xs, k, v) {
      SortStable(ys, k, ascending, v);
      SortStable(xs, k, before, v);
    }
    SortCharacterised(xs, Sort(ys, k, ascending), k, ascending);
  }

  function Reverse(xs: seq<StateInfo>): (r: seq<StateInfo>)
    ensures |r| == |xs| && forall i :: 0 <= i < |xs| ==> r[i] == xs[|xs| - 1 - i]
  {
    seq(|xs|, i requires 0 <= i < |xs| => xs[|xs| - 1 - i])
  }

  /** Descending sorting keeps equal keys in input order, so it is not reversed ascending sorting. */
  lemma DescendingKeepsTies(x: StateInfo, y: StateInfo, k: SortKey)
    requires x != y && KeyOf(k, x) == KeyOf(k, y)
    ensures Sort([x, y], k, false) == [x, y]
    ensures Reverse(Sort([x, y], k, true)) == [y, x]
  {
    LessIrreflexive(KeyOf(k, x));
    assert [x, y][..1] == [x];
    assert [x][..0] == [];
    assert Sort([x], k, false) == [x] && Sort([x], k, true) == [x];
    assert Insert([x], y, k, false) == [x] + Insert([], y, k, false);
    assert Insert([x], y, k, true) == [x] + Insert([], y, k, true);
  }

  predicate DistinctKeys(xs: seq<StateInfo>, k: SortKey) {
    forall i, j :: 0 <= i < j < |xs| ==> KeyOf(k, xs[i]) != KeyOf(k, xs[j])
  }

  lemma {:induction false} WithKeyOfDistinct(xs: seq<StateInfo>, k: SortKey, v: SortValue)
    requires DistinctKeys(xs, k)
    ensures |WithKey(xs, k, v)| <= 1
    decreases |xs|
  {
    if xs != [] {
      var front := xs[..|xs| - 1];
      assert DistinctKeys(front, k) by {
        forall i, j | 0 <= i < j < |front| ensures KeyOf(k, front[i]) != KeyOf(k, front[j]) {
          assert front[i] == xs[i] && front[j] == xs[j];
        }
      }
      WithKeyOfDistinct(front, k, v);
      if KeyOf(k, xs[|xs| - 1]) == v && WithKey(front, k, v) != [] {
        var i := WithKeyMember(front, k, v, WithKey(front, k, v)[0]);
        assert false;
      }
    }
  }

  lemma {:induction false} WithKeyReverse(xs: seq<StateInfo>, k: SortKey, v: SortValue)
    ensures WithKey(Reverse(xs), k, v) == Reverse(WithKey(xs, k, v))
    decreases |xs|
  {
    if xs != [] {
      var front, last := xs[..|xs| - 1], xs[|xs| - 1];
      var e, wf := Tagged(last, k, v), WithKey(front, k, v);
      WithKeyReverse(front, k, v);
      ReverseSnoc(front, last);
      assert xs == front + [last];
      WithKeyCons(last, Reverse(front), k, v);
      ReverseAppend(wf, e);
      ReverseOfAtMostOne(e);
    }
  }

  lemma ReverseSnoc(front: seq<StateInfo>, last: StateInfo)
    ensures Reverse(front + [last]) == [last] + Reverse(front)
  {
  }

  lemma ReverseAppend(a: seq<StateInfo>, b: seq<StateInfo>)
    ensures Reverse(a + b) == Reverse(b) + Reverse(a)
  {
  }

  /** Ascending order read backwards is in descending order. */
  lemma ReverseSorted(up: seq<StateInfo>, k: SortKey)
    requires Sorted(up, k, true)
    ensures Sorted(Reverse(up), k, false)
  {
    var r := Reverse(up);
    forall i, j | 0 <= i < j < |r| ensures !Precedes(k, false, r[j], r[i]) {
      assert r[j] == up[|up| - 1 - j] && r[i] == up[|up| - 1 - i];
    }
  }

  lemma ReverseOfAtMostOne(w: seq<StateInfo>)
    requires |w| <= 1
    ensures Reverse(w) == w
  {
  }

  /** Without ties, descending order is ascending order read backwards. */
  lemma DescendingIsReversedWhenDistinct(xs: seq<StateInfo>, k: SortKey)
    requires DistinctKeys(xs, k)
    ensures Sort(xs, k, false) == Reverse(Sort(xs, k, true))
  {
    var up := Sort(xs, k, true);
    SortSorted(xs, k, true);
    ReverseSorted(up, k);
    forall v ensures WithKey(Reverse(up), k, v) == WithKey(xs, k, v) {
      WithKeyReverse(up, k, v);
      SortStable(xs, k, true, v);
      WithKeyOfDistinct(xs, k, v);
      ReverseOfAtMostOne(WithKey(xs, k, v));
    }
    SortCharacterised(xs, Reverse(up), k, false);
  }

  // ---------------------------------------------------------------------------
  // The same facts for a key given by name

  /** Under a known key name the result is sorted, a permutation and stable; under any other name it is the input. */
  lemma SortByNameSpec(xs: seq<StateInfo>, name: string, ascending: bool, v: SortValue)
    ensures multiset(SortByName(xs, name, ascending)) == multiset(xs)
    ensures ParseSortKey(name).None? ==> SortByName(xs, name, ascending) == xs
    ensures ParseSortKey(name).Some? ==>
      && Sorted(SortByName(xs, name, ascending), ParseSortKey(name).value, ascending)
      && WithKey(SortByName(xs, name, ascending), ParseSortKey(name).value, v) == WithKey(xs, ParseSortKey(name).value, v)
  {
    if ParseSortKey(name).Some? {
      var k := ParseSortKey(name).value;
      SortSorted(xs, k, ascending);
      SortPermutation(xs, k, ascending);
      SortStable(xs, k, ascending, v);
    }
  }

  /** Sorting again under the same name forgets the previous direction. */
  lemma SortByNameResort(xs: seq<StateInfo>, name: string, before: bool, ascending: bool)
    ensures SortByName(SortByName(xs, name, before), name, ascending) == SortByName(xs, name, ascending)
  {
    if ParseSortKey(name).Some? {
      ResortSameKey(xs, ParseSortKey(name).value, before, ascending);
    }
  }

  /** Sorting only rearranges: every record of the result comes from the input. */
  lemma SortByNameKeepsMembers(xs: seq<StateInfo>, name: string, ascending: bool, all: seq<StateInfo>)
    requires forall x :: x in xs ==> x in all
    ensures forall x :: x in SortByName(xs, name, ascending) ==> x in all
  {
    SortByNameSpec(xs, name, ascending, IntValue(0));
    forall x | x in SortByName(xs, name, ascending) ensures x in all {
      assert x in multiset(SortByName(xs, name, ascending));
    }
  }
}
