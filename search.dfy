/**
 * The five-field search of both tools. Each entry's text is stripped; an
 * empty entry does not constrain; the id must equal `str(state_id)`, the two
 * names must contain the query case-insensitively, the owner must equal the
 * query in upper case, and a manpower query that `int()` accepts must equal
 * `str(int(query))`, while one that `int()` rejects is ignored.
 */
module StateSearch {
  import opened Wrappers
  import opened PyText
  import opened PyInt
  import opened StateRecords

  /** The raw text of the five search entries. */
  datatype SearchInput = SearchInput(id: string, name: string, localizedName: string, owner: string, manpower: string)

  const NoSearch := SearchInput("", "", "", "", "")

  predicate IdCriterion(query: string, x: StateInfo) {
    var q := Strip(query);
    q != [] ==> IntToStr(x.stateId) == q
  }

  predicate TextCriterion(query: string, field: string) {
    var q := Lower(Strip(query));
    q != [] ==> Contains(Lower(field), q)
  }

  predicate OwnerCriterion(query: string, owner: string) {
    var q := Upper(Strip(query));
    q != [] ==> q == owner
  }

  predicate ManpowerCriterion(query: string, manpower: string) {
    var q := Strip(query);
    q != [] ==> match ParseInt(q, 10)
                case None => true
                case Some(n) => IntToStr(n) == manpower
  }

  /** The `match` flag of the search loop for one record. */
  predicate Matches(q: SearchInput, x: StateInfo) {
    && IdCriterion(q.id, x)
    && TextCriterion(q.name, x.stateName)
    && TextCriterion(q.localizedName, x.localizedName)
    && OwnerCriterion(q.owner, x.owner)
    && ManpowerCriterion(q.manpower, x.manpower)
  }

  /** The records of `xs` that match, in their order. */
  function Filter(xs: seq<StateInfo>, q: SearchInput): (r: seq<StateInfo>)
    ensures |r| <= |xs|
    decreases |xs|
  {
    if xs == [] then []
    else Filter(xs[..|xs| - 1], q) + (if Matches(q, xs[|xs| - 1]) then [xs[|xs| - 1]] else [])
  }

  // ---------------------------------------------------------------------------
  // The result

  /** A record is in the result exactly when it is in the list and matches. */
  lemma {:induction false} FilterMembers(xs: seq<StateInfo>, q: SearchInput, x: StateInfo)
    ensures x in Filter(xs, q) <==> x in xs && Matches(q, x)
    decreases |xs|
  {
    if xs != [] {
      var front := xs[..|xs| - 1];
      FilterMembers(front, q, x);
      assert xs == front + [xs[|xs| - 1]];
    }
  }

  /** Filtering keeps order: a concatenation filters piecewise. */
  lemma {:induction false} FilterAppend(a: seq<StateInfo>, b: seq<StateInfo>, q: SearchInput)
    ensures Filter(a + b, q) == Filter(a, q) + Filter(b, q)
    decreases |b|
  {
    if b == [] {
      assert a + b == a;
    } else {
      var b' := b[..|b| - 1];
      assert (a + b)[..|a + b| - 1] == a + b';
      FilterAppend(a, b', q);
    }
  }

  /** When every record matches, nothing is dropped. */
  lemma FilterAll(xs: seq<StateInfo>, q: SearchInput)
    requires forall i :: 0 <= i < |xs| ==> Matches(q, xs[i])
    ensures Filter(xs, q) == xs
  {
    AllMatchOf(xs, q);
    FilterAllMatch(xs, q);
  }

  /** Every record matches, stated without a quantifier. */
  predicate AllMatch(xs: seq<StateInfo>, q: SearchInput)
    decreases |xs|
  {
    xs == [] || (AllMatch(xs[..|xs| - 1], q) && Matches(q, xs[|xs| - 1]))
  }

  lemma {:induction false} AllMatchOf(xs: seq<StateInfo>, q: SearchInput)
    requires forall i :: 0 <= i < |xs| ==> Matches(q, xs[i])
    ensures AllMatch(xs, q)
    decreases |xs|
  {
    if xs != [] {
      var f := xs[..|xs| - 1];
      assert forall i :: 0 <= i < |f| ==> f[i] == xs[i];
      AllMatchOf(f, q);
    }
  }

  lemma {:induction false} FilterAllMatch(xs: seq<StateInfo>, q: SearchInput)
    requires AllMatch(xs, q)
    ensures Filter(xs, q) == xs
    decreases |xs|
  {
    if xs != [] {
      var f, x := xs[..|xs| - 1], xs[|xs| - 1];
      FilterAllMatch(f, q);
      FilterSnocMatch(f, x, q);
      assert xs == f + [x];
    }
  }

  lemma FilterSnocMatch(f: seq<StateInfo>, x: StateInfo, q: SearchInput)
    requires Matches(q, x)
    ensures Filter(f + [x], q) == Filter(f, q) + [x]
  {
    assert (f + [x])[..|f|] == f;
  }

  /** Searching with all entries empty (or blank) shows every record. */
  lemma BlankSearchShowsAll(xs: seq<StateInfo>, q: SearchInput)
    requires Strip(q.id) == [] && Strip(q.name) == [] && Strip(q.localizedName) == []
    requires Strip(q.owner) == [] && Strip(q.manpower) == []
    ensures Filter(xs, q) == xs
  {
    FilterAll(xs, q);
  }

  /** Searching the result again with the same entries changes nothing. */
  lemma {:induction false} FilterIdempotent(xs: seq<StateInfo>, q: SearchInput)
    ensures Filter(Filter(xs, q), q) == Filter(xs, q)
  {
    var r := Filter(xs, q);
    forall i | 0 <= i < |r| ensures Matches(q, r[i]) {
      FilterMembers(xs, q, r[i]);
    }
    FilterAll(r, q);
  }

  // ---------------------------------------------------------------------------
  // The single criteria

  /** A non-blank id query finds exactly the state whose id it writes without leading zeros. */
  lemma IdQuery(query: string, x: StateInfo)
    requires Strip(query) != []
    ensures IdCriterion(query, x) <==> Canonical(Strip(query)) && ValueOf(Strip(query), 10) == x.stateId
  {
    var q := Strip(query);
    ValueOfNatToDigits(x.stateId, 10);
    if Canonical(q) && ValueOf(q, 10) == x.stateId {
      NatToDigitsOfValue(q);
    }
  }

  /** For a non-blank query that `int()` rejects, the manpower entry is as good as empty. */
  lemma ManpowerQueryIgnored(q: SearchInput, x: StateInfo)
    requires ParseInt(Strip(q.manpower), 10).None?
    ensures Matches(q, x) == Matches(q.(manpower := ""), x)
  {
    assert Strip("") == [];
  }

  /**
   * On the manpower values the parser stores, a numeric query finds exactly
   * the records whose digits are written without leading zeros and equal it;
   * so `manpower = 0123` is never found, and neither is "N/A".
   */
  lemma ManpowerQuery(query: string, manpower: string, n: int)
    requires ManpowerOk(manpower)
    requires Strip(query) != [] && ParseInt(Strip(query), 10) == Some(n)
    ensures ManpowerCriterion(query, manpower) <==> Canonical(manpower) && ValueOf(manpower, 10) == n
  {
    if n >= 0 {
      ValueOfNatToDigits(n, 10);
      if Canonical(manpower) && ValueOf(manpower, 10) == n {
        NatToDigitsOfValue(manpower);
      }
    } else {
      assert IntToStr(n)[0] == '-';
      if manpower != NotAvailable {
        assert IsDecimalDigit(manpower[0]);
      }
    }
  }

  /** Typing an owner tag in lower case finds the owner. */
  lemma OwnerQueryInLowerCase(owner: string)
    requires |owner| == 3 && AllChars(owner, IsAsciiUpper)
    ensures OwnerCriterion(Lower(owner), owner)
  {
    var l := Lower(owner);
    assert Trimmed(l, IsSpace) by {
      assert IsAsciiLower(l[0]) && IsAsciiLower(l[2]);
    }
    StripOfUnpadded(l);
    UpperOfLower(owner);
    assert Upper(owner) == owner;
  }

  /** Every trimmed piece of a name, typed in either case, finds that name. */
  lemma NameQueryOfPiece(field: string, i: nat, j: nat)
    requires i < j <= |field| && Trimmed(field[i..j], IsSpace)
    ensures TextCriterion(field[i..j], field)
    ensures TextCriterion(Upper(field[i..j]), field)
  {
    var piece := field[i..j];
    StripOfUnpadded(piece);
    assert OccursAt(Lower(field), Lower(piece), i) by {
      assert Lower(field)[i..j] == Lower(piece);
    }
    var u := Upper(piece);
    assert Trimmed(u, IsSpace) by {
      UpperKeepsSpace(piece[0]);
      UpperKeepsSpace(piece[|piece| - 1]);
    }
    StripOfUnpadded(u);
    LowerOfUpper(piece);
  }

  lemma UpperKeepsSpace(c: char)
    ensures IsSpace(UpperChar(c)) <==> IsSpace(c)
  {
  }

  /** The result holds records of the searched list only. */
  lemma FilterKeepsMembers(xs: seq<StateInfo>, q: SearchInput)
    ensures forall x :: x in Filter(xs, q) ==> x in xs
  {
    forall x | x in Filter(xs, q) ensures x in xs {
      FilterMembers(xs, q, x);
    }
  }
}
