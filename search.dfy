/**
 * The dashboard's search: the grouped object is walked entry by entry and rebuilt with only the
 * members (and groups) the search term matches; the header counts what is left.
 */
module Search {
  import opened Text
  import opened Sequences
  import opened IndividualModel
  import opened Grouping
  import opened KeyOrder

  // ---------------------------------------------------------------------------------------
  // Matching one member
  // ---------------------------------------------------------------------------------------

  /** The search test of one member: the lower-cased term occurs in its first name, last name, group name or the group's code. */
  predicate MatchesTerm(m: Individual, code: string, term: string)
    ensures term == "" ==> MatchesTerm(m, code, term)
  {
    var t := ToLower(term);
    || Contains(ToLower(m.firstName), t)
    || Contains(ToLower(m.lastName), t)
    || Contains(ToLower(m.groupName), t)
    || Contains(ToLower(code), t)
  }

  /** The test ignores the case of the term: a term and its lower-cased form match the same members. */
  lemma MatchIgnoresTermCase(m: Individual, code: string, term: string)
    ensures MatchesTerm(m, code, term) <==> MatchesTerm(m, code, ToLower(term))
  {
    ToLowerIdempotent(term);
  }

  /** The search test as a function value, for filtering one group. */
  function MatchesOf(code: string, term: string): Individual -> bool {
    (m: Individual) => MatchesTerm(m, code, term)
  }

  /** `matchingMembers`: the members of one group that the search keeps, in their order. */
  function MatchingMembers(members: seq<Individual>, code: string, term: string): seq<Individual> {
    Filter(members, MatchesOf(code, term))
  }

  // ---------------------------------------------------------------------------------------
  // Entries and the filtering reduce
  // ---------------------------------------------------------------------------------------

  /** One element of `Object.entries`: a key and its property. */
  type Entry = (string, seq<Individual>)

  /** The keys of a list of entries, in order. */
  function EntryKeys(es: seq<Entry>): (r: seq<string>)
    ensures |r| == |es|
    ensures forall i :: 0 <= i < |es| ==> r[i] == es[i].0
  {
    seq(|es|, i requires 0 <= i < |es| => es[i].0)
  }

  /** The given keys, in the given order, each paired with its property. */
  function EntriesOf(keys: seq<string>, values: map<string, seq<Individual>>): (r: seq<Entry>)
    requires forall i :: 0 <= i < |keys| ==> keys[i] in values
    ensures EntryKeys(r) == keys
    ensures forall i :: 0 <= i < |r| ==> r[i].0 in values && r[i].1 == values[r[i].0]
  {
    seq(|keys|, i requires 0 <= i < |keys| => (keys[i], values[keys[i]]))
  }

  /** `Object.entries(t)`: every own key, in enumeration order, paired with its property. */
  function Entries(t: CodeTable): (r: seq<Entry>)
    requires forall k :: k in t.keys ==> k in t.values
    ensures EntryKeys(r) == EnumerationOrder(t.keys)
    ensures forall i :: 0 <= i < |r| ==> r[i].0 in t.values && r[i].1 == t.values[r[i].0]
  {
    var order := EnumerationOrder(t.keys);
    forall i | 0 <= i < |order|
      ensures order[i] in t.keys
    {
      assert order[i] in multiset(order);
    }
    EntriesOf(order, t.values)
  }

  /** Whether a group appears in the filtered object: always for a blank term, otherwise when a member matches. */
  function Survives(term: string): Entry -> bool {
    (e: Entry) => IsBlank(term) || MatchingMembers(e.1, e.0, term) != []
  }

  /** The list a surviving group shows: all of it for a blank term, otherwise its matching members. */
  function Shown(e: Entry, term: string): seq<Individual> {
    if IsBlank(term) then e.1 else MatchingMembers(e.1, e.0, term)
  }

  /**
   * `filteredGroupedInvitations` over `entries`: a blank term (one that trims to nothing) copies
   * every group; any other term keeps the matching members of a group, and the group only when
   * at least one member matches. The matching itself uses the untrimmed term.
   */
  function FilterEntries(entries: seq<Entry>, term: string): (r: CodeTable)
    ensures |r.keys| <= |entries|
  {
    if entries == [] then EmptyTable
    else
      var prev := FilterEntries(entries[..|entries| - 1], term);
      var (code, members) := entries[|entries| - 1];
      if IsBlank(term) then CodeTable(prev.keys + [code], prev.values[code := members])
      else
        var matching := MatchingMembers(members, code, term);
        if |matching| > 0 then CodeTable(prev.keys + [code], prev.values[code := matching]) else prev
  }

  /**
   * `filteredGroupedInvitations`, step by step: an empty accumulator object, then for each entry of
   * the grouped object, in enumeration order, an assignment of the (filtered) member list.
   */
  method FilterGroups(grouped: CodeTable, searchTerm: string) returns (filtered: CodeTable)
    requires forall k :: k in grouped.keys ==> k in grouped.values
    ensures filtered == FilterEntries(Entries(grouped), searchTerm)
  {
    var entries := Entries(grouped);
    TrimMeaning(searchTerm);
    filtered := EmptyTable;
    for i := 0 to |entries|
      invariant filtered == FilterEntries(entries[..i], searchTerm)
    {
      var (code, members) := entries[i];
      PrefixSnoc(entries, i);
      assert entries[..i + 1][..i] == entries[..i];
      if Trim(searchTerm) == "" {
        filtered := CodeTable(filtered.keys + [code], filtered.values[code := members]);
      } else {
        var matchingMembers := MatchingMembers(members, code, searchTerm);
        if |matchingMembers| > 0 {
          filtered := CodeTable(filtered.keys + [code], filtered.values[code := matchingMembers]);
        }
      }
    }
    assert entries[..|entries|] == entries;
  }

  // ---------------------------------------------------------------------------------------
  // What the filter produces
  // ---------------------------------------------------------------------------------------

  /** The keys of entries extended by one entry. */
  lemma EntryKeysSnoc(es: seq<Entry>, e: Entry)
    ensures EntryKeys(es + [e]) == EntryKeys(es) + [e.0]
  {
    assert EntryKeys(es + [e])[|es|] == e.0;
  }

  /**
   * Over entries with distinct keys, the filtered object holds the surviving entries' keys, in
   * entry order, each once; a key has a property exactly when its entry survives, and the
   * property is the list the group shows.
   */
  lemma {:induction false} FilterEntriesMeaning(entries: seq<Entry>, term: string)
    requires NoDuplicates(EntryKeys(entries))
    ensures var r := FilterEntries(entries, term);
            && r.keys == EntryKeys(Filter(entries, Survives(term)))
            && WellFormed(r)
            && (forall k :: k in r.values ==> k in EntryKeys(entries))
            && (forall i :: 0 <= i < |entries| ==> (entries[i].0 in r.values <==> Survives(term)(entries[i])))
            && (forall i :: 0 <= i < |entries| && Survives(term)(entries[i]) ==>
                  r.values[entries[i].0] == Shown(entries[i], term))
  {
    if entries != [] {
      var init, e := entries[..|entries| - 1], entries[|entries| - 1];
      assert entries == init + [e];
      EntryKeysSnoc(init, e);
      assert NoDuplicates(EntryKeys(init)) by {
        assert EntryKeys(init) == EntryKeys(entries)[..|init|];
      }
      FilterEntriesMeaning(init, term);
      FilterEntriesSnoc(init, e, term);
      FilterSnoc(init, e, Survives(term));
      var prev, r := FilterEntries(init, term), FilterEntries(entries, term);
      assert e.0 !in EntryKeys(init);
      if Survives(term)(e) {
        EntryKeysSnoc(Filter(init, Survives(term)), e);
        AddKeepsWellFormed(prev, e.0, Shown(e, term));
      }
      forall i | 0 <= i < |entries|
        ensures entries[i].0 in r.values <==> Survives(term)(entries[i])
        ensures Survives(term)(entries[i]) ==> r.values[entries[i].0] == Shown(entries[i], term)
      {
        if i < |init| {
          assert entries[i] == init[i];
          assert init[i].0 != e.0;
        }
      }
    }
  }

  /** Adding a key the object does not hold, at the end of its key order, keeps it well-formed. */
  lemma AddKeepsWellFormed(t: CodeTable, k: string, v: seq<Individual>)
    requires WellFormed(t) && k !in t.values
    ensures WellFormed(CodeTable(t.keys + [k], t.values[k := v]))
  {
  }

  /** Filtering entries extended by one entry: the entry's key is added, with the list it shows, exactly when it survives. */
  lemma FilterEntriesSnoc(init: seq<Entry>, e: Entry, term: string)
    ensures var prev := FilterEntries(init, term);
            FilterEntries(init + [e], term)
              == if Survives(term)(e) then CodeTable(prev.keys + [e.0], prev.values[e.0 := Shown(e, term)]) else prev
  {
    assert (init + [e])[..|init|] == init;
  }

  /**
   * The search over a well-formed grouped object: the result is well-formed; a group appears
   * exactly when it survives the search, and then with the list it shows; nothing else appears.
   */
  lemma SearchResult(g: CodeTable, term: string)
    requires WellFormed(g)
    ensures var f := FilterEntries(Entries(g), term);
            && WellFormed(f)
            && (forall k :: k in f.values ==> k in g.values)
            && (forall k :: k in g.values ==> (k in f.values <==> Survives(term)((k, g.values[k]))))
            && (forall k :: k in f.values ==> f.values[k] == Shown((k, g.values[k]), term))
  {
    var entries := Entries(g);
    var f := FilterEntries(entries, term);
    FilterEntriesMeaning(entries, term);
    forall k | k in f.values
      ensures k in g.values
    {
      EntryKeyInTable(g, k);
    }
    forall k | k in g.values
      ensures k in f.values <==> Survives(term)((k, g.values[k]))
      ensures k in f.values ==> f.values[k] == Shown((k, g.values[k]), term)
    {
      var i := EntryOfKey(g, k);
    }
  }

  /** A key among the entries' keys is a key of the object. */
  lemma EntryKeyInTable(g: CodeTable, k: string)
    requires WellFormed(g)
    requires k in EntryKeys(Entries(g))
    ensures k in g.values
  {
    assert k in multiset(EnumerationOrder(g.keys));
  }

  /** Each key of the object has an entry, holding its property. */
  lemma EntryOfKey(g: CodeTable, k: string) returns (i: nat)
    requires WellFormed(g)
    requires k in g.values
    ensures i < |Entries(g)| && Entries(g)[i] == (k, g.values[k])
  {
    var order := EntryKeys(Entries(g));
    assert k in multiset(order);
    i :| 0 <= i < |order| && order[i] == k;
  }

  /** A blank search term shows every group with its full member list, keys in enumeration order. */
  lemma BlankSearchKeepsEverything(g: CodeTable, term: string)
    requires WellFormed(g)
    requires IsBlank(term)
    ensures var f := FilterEntries(Entries(g), term);
            f.values == g.values && f.keys == EnumerationOrder(g.keys)
  {
    var entries := Entries(g);
    var f := FilterEntries(entries, term);
    assert f.keys == EnumerationOrder(g.keys) by {
      FilterAll(entries, Survives(term));
      FilterEntriesMeaning(entries, term);
    }
    SearchResult(g, term);
    forall k | k in g.values
      ensures k in f.values
    {
      assert Survives(term)((k, g.values[k]));
    }
    SameEntriesSameMap(f.values, g.values);
  }

  /** Two maps with the same keys and the same value under each key are equal. */
  lemma SameEntriesSameMap<K, V>(a: map<K, V>, b: map<K, V>)
    requires forall k :: k in a <==> k in b
    requires forall k :: k in a ==> a[k] == b[k]
    ensures a == b
  {
  }

  /**
   * With a non-blank term, each group that stays holds an order-preserving selection of its
   * members, never empty: exactly the members that match.
   */
  lemma SearchKeepsMatchingMembers(g: CodeTable, term: string)
    requires WellFormed(g)
    requires !IsBlank(term)
    ensures var f := FilterEntries(Entries(g), term);
            forall k :: k in f.values ==>
              && k in g.values
              && f.values[k] != []
              && IsSubsequence(f.values[k], g.values[k])
              && (forall m :: m in f.values[k] <==> m in g.values[k] && MatchesTerm(m, k, term))
  {
    SearchResult(g, term);
    var f := FilterEntries(Entries(g), term);
    forall k | k in f.values
      ensures IsSubsequence(f.values[k], g.values[k])
      ensures forall m :: m in f.values[k] <==> m in g.values[k] && MatchesTerm(m, k, term)
    {
      assert f.values[k] == MatchingMembers(g.values[k], k, term);
      FilterMembership(g.values[k], MatchesOf(k, term));
      FilterIsSubsequence(g.values[k], MatchesOf(k, term));
    }
  }

  /** With a non-blank term, a group stays exactly when at least one of its members matches. */
  lemma SearchDropsGroupsWithoutMatch(g: CodeTable, term: string)
    requires WellFormed(g)
    requires !IsBlank(term)
    ensures var f := FilterEntries(Entries(g), term);
            forall k :: k in g.values ==> (k in f.values <==> exists m :: m in g.values[k] && MatchesTerm(m, k, term))
  {
    SearchResult(g, term);
    var f := FilterEntries(Entries(g), term);
    forall k | k in g.values
      ensures k in f.values <==> exists m :: m in g.values[k] && MatchesTerm(m, k, term)
    {
      var matching := MatchingMembers(g.values[k], k, term);
      FilterMembership(g.values[k], MatchesOf(k, term));
      if matching != [] {
        assert matching[0] in matching;
      }
    }
  }

  /** A term found in a group's code keeps the whole group, whatever its members' names. */
  lemma SearchByCodeKeepsWholeGroup(g: CodeTable, term: string, code: string)
    requires WellFormed(g)
    requires !IsBlank(term)
    requires code in g.values && g.values[code] != []
    requires Contains(ToLower(code), ToLower(term))
    ensures var f := FilterEntries(Entries(g), term);
            code in f.values && f.values[code] == g.values[code]
  {
    SearchResult(g, term);
    FilterAll(g.values[code], MatchesOf(code, term));
  }

  // ---------------------------------------------------------------------------------------
  // The header counts
  // ---------------------------------------------------------------------------------------

  /** The total number of members over a list of entries. */
  function EntriesSize(es: seq<Entry>): nat {
    if es == [] then 0 else EntriesSize(es[..|es| - 1]) + |es[|es| - 1].1|
  }

  /** Entries taken from an object count exactly the members the object's keys flatten to. */
  lemma {:induction false} EntriesSizeFlat(es: seq<Entry>, values: map<string, seq<Individual>>)
    requires forall i :: 0 <= i < |es| ==> es[i].0 in values && es[i].1 == values[es[i].0]
    ensures forall k :: k in EntryKeys(es) ==> k in values
    ensures EntriesSize(es) == |Flat(EntryKeys(es), values)|
  {
    if es != [] {
      var init := es[..|es| - 1];
      assert es == init + [es[|es| - 1]];
      EntryKeysSnoc(init, es[|es| - 1]);
      EntriesSizeFlat(init, values);
    }
  }

  /** Adding a new key with its group at the end of an object adds that group at the end of the flattening. */
  lemma FlatSnocKey(keys: seq<string>, values: map<string, seq<Individual>>, k: string, v: seq<Individual>)
    requires forall x :: x in keys ==> x in values
    requires k !in keys
    ensures forall x :: x in keys + [k] ==> x in values[k := v]
    ensures Flat(keys + [k], values[k := v]) == Flat(keys, values) + v
  {
    FlatUpdateOther(keys, values, k, v);
    assert (keys + [k])[..|keys|] == keys;
  }

  /** The filtered object flattens to no more members than its entries hold, and has no more keys. */
  lemma {:induction false} FilterEntriesShrinks(entries: seq<Entry>, term: string)
    requires NoDuplicates(EntryKeys(entries))
    ensures var r := FilterEntries(entries, term);
            && (forall k :: k in r.keys ==> k in r.values && k in EntryKeys(entries))
            && |r.keys| <= |entries|
            && |Flat(r.keys, r.values)| <= EntriesSize(entries)
  {
    if entries != [] {
      var init, e := entries[..|entries| - 1], entries[|entries| - 1];
      assert entries == init + [e];
      EntryKeysSnoc(init, e);
      var keys := EntryKeys(entries);
      assert EntryKeys(init) == keys[..|init|];
      assert e.0 !in EntryKeys(init) by {
        assert keys[|init|] == e.0;
      }
      FilterEntriesShrinks(init, term);
      var prev := FilterEntries(init, term);
      var r := FilterEntries(entries, term);
      if r != prev {
        FlatSnocKey(prev.keys, prev.values, e.0, r.values[e.0]);
      }
    }
  }

  /** Visiting an object's keys in enumeration order flattens to as many members as insertion order. */
  lemma FlatLengthInOrder(keys: seq<string>, values: map<string, seq<Individual>>)
    requires forall k :: k in keys ==> k in values
    ensures forall k :: k in EnumerationOrder(keys) ==> k in values
    ensures |Flat(EnumerationOrder(keys), values)| == |Flat(keys, values)|
  {
    FlatPermutation(keys, EnumerationOrder(keys), values);
    assert |multiset(Flat(keys, values))| == |Flat(keys, values)|;
    assert |multiset(Flat(EnumerationOrder(keys), values))| == |Flat(EnumerationOrder(keys), values)|;
  }

  /** The dashboard header: the number of groups and the number of individuals an object holds. */
  function HeaderCounts(t: CodeTable): (r: (nat, nat))
    requires forall k :: k in t.keys ==> k in t.values
    ensures r.0 == |t.keys|
    ensures r.1 == |Flat(t.keys, t.values)|
  {
    var order := EnumerationOrder(t.keys);
    FlatLengthInOrder(t.keys, t.values);
    assert |order| == |multiset(order)| == |t.keys|;
    (|order|, |Flat(order, t.values)|)
  }

  /**
   * The header over the fetched list: unfiltered, one group per distinct code and every
   * individual once; filtered, never more groups nor more individuals than that.
   */
  lemma FilteredCountsBounded(xs: seq<Individual>, term: string)
    ensures var g := Grouped(xs);
            var f := FilterEntries(Entries(g), term);
            && (forall k :: k in f.keys ==> k in f.values)
            && HeaderCounts(g) == (|DistinctCodes(xs)|, |xs|)
            && HeaderCounts(f).0 <= HeaderCounts(g).0
            && HeaderCounts(f).1 <= HeaderCounts(g).1
  {
    var g := Grouped(xs);
    GroupedMeaning(xs);
    GroupingPartitions(xs);
    var entries := Entries(g);
    FilterEntriesShrinks(entries, term);
    EntriesSizeFlat(entries, g.values);
    FlatLengthInOrder(g.keys, g.values);
  }
}
