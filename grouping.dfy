/**
 * The dashboard's first derived view of the fetched guest list: the individuals grouped by
 * invitation code, as a JavaScript object from codes to member lists.
 */
module Grouping {
  import opened Sequences
  import opened IndividualModel

  // ---------------------------------------------------------------------------------------
  // Grouping by invitation code
  // ---------------------------------------------------------------------------------------

  /** The test "belongs to the group with this code". */
  function HasCode(code: string): Individual -> bool {
    (x: Individual) => x.invitationCode == code
  }

  /** One group's member list: the individuals carrying `code`, in fetched order. */
  function MembersWith(xs: seq<Individual>, code: string): seq<Individual> {
    Filter(xs, HasCode(code))
  }

  /** Every invitation code that occurs in `xs`. */
  function CodesOf(xs: seq<Individual>): set<string> {
    set x | x in xs :: x.invitationCode
  }

  /** The codes of `xs` in order of first occurrence, each once. */
  function DistinctCodes(xs: seq<Individual>): (r: seq<string>)
    ensures NoDuplicates(r)
    ensures forall c :: c in r <==> c in CodesOf(xs)
  {
    if xs == [] then []
    else
      var init, last := xs[..|xs| - 1], xs[|xs| - 1];
      assert xs == init + [last];
      assert CodesOf(xs) == CodesOf(init) + {last.invitationCode};
      var prev := DistinctCodes(init);
      if last.invitationCode in prev then prev else prev + [last.invitationCode]
  }

  /**
   * A JavaScript object from invitation codes to member lists: `keys` are its own keys in
   * insertion order, `values` its properties.
   */
  datatype CodeTable = CodeTable(keys: seq<string>, values: map<string, seq<Individual>>)

  /** Each key once, and exactly the keys that have a property. */
  ghost predicate WellFormed(t: CodeTable) {
    NoDuplicates(t.keys) && forall k :: k in t.keys <==> k in t.values
  }

  /** The empty accumulator object `{}`. */
  const EmptyTable := CodeTable([], map[])

  /**
   * One step of the grouping reduce: a new empty list under the individual's code when the
   * code is not a key yet, then a push of the individual onto that list.
   */
  function AddToGroup(t: CodeTable, x: Individual): CodeTable {
    var code := x.invitationCode;
    var ready := if code in t.values then t else CodeTable(t.keys + [code], t.values[code := []]);
    CodeTable(ready.keys, ready.values[code := ready.values[code] + [x]])
  }

  /** The object the grouping reduce builds from `xs`, one individual at a time. */
  function Grouped(xs: seq<Individual>): (t: CodeTable)
    ensures WellFormed(t)
  {
    if xs == [] then EmptyTable else AddToGroup(Grouped(xs[..|xs| - 1]), xs[|xs| - 1])
  }

  /** Appending one individual extends its own code's group by it and leaves every other group alone. */
  lemma MembersWithSnoc(xs: seq<Individual>, x: Individual, c: string)
    ensures MembersWith(xs + [x], c) == MembersWith(xs, c) + (if x.invitationCode == c then [x] else [])
  {
    FilterSnoc(xs, x, HasCode(c));
  }

  /** A code nobody carries has an empty group. */
  lemma {:induction false} MembersWithAbsent(xs: seq<Individual>, c: string)
    requires c !in CodesOf(xs)
    ensures MembersWith(xs, c) == []
  {
    if xs != [] {
      var init, last := xs[..|xs| - 1], xs[|xs| - 1];
      assert xs == init + [last];
      CodesOfSnoc(init, last);
      MembersWithAbsent(init, c);
      MembersWithSnoc(init, last, c);
    }
  }

  /** The codes of a list extended by one individual. */
  lemma CodesOfSnoc(xs: seq<Individual>, x: Individual)
    ensures CodesOf(xs + [x]) == CodesOf(xs) + {x.invitationCode}
  {
    assert x in xs + [x];
    assert forall y :: y in xs + [x] <==> y in xs || y == x;
  }

  /**
   * What the grouping builds: the codes in order of first occurrence as keys, each once, and
   * under each code exactly the individuals carrying it, in fetched order.
   */
  lemma {:induction false} GroupedMeaning(xs: seq<Individual>)
    ensures Grouped(xs).keys == DistinctCodes(xs)
    ensures Grouped(xs).values.Keys == CodesOf(xs)
    ensures forall c :: c in Grouped(xs).values ==> Grouped(xs).values[c] == MembersWith(xs, c)
    ensures WellFormed(Grouped(xs))
  {
    if xs != [] {
      var init, x := xs[..|xs| - 1], xs[|xs| - 1];
      assert xs == init + [x];
      GroupedMeaning(init);
      GroupStepKeys(init, x, Grouped(init));
      GroupStepValues(init, x, Grouped(init));
    }
  }

  /** One step of the grouping, on the keys: a code is appended the first time it is seen. */
  lemma GroupStepKeys(done: seq<Individual>, x: Individual, t: CodeTable)
    requires t.keys == DistinctCodes(done)
    requires t.values.Keys == CodesOf(done)
    ensures AddToGroup(t, x).keys == DistinctCodes(done + [x])
  {
    assert (done + [x])[..|done|] == done;
  }

  /** One step of the grouping, on the lists: adding `x` to the object over `done` gives the lists over `done + [x]`. */
  lemma GroupStepValues(done: seq<Individual>, x: Individual, t: CodeTable)
    requires t.values.Keys == CodesOf(done)
    requires forall c :: c in t.values ==> t.values[c] == MembersWith(done, c)
    ensures AddToGroup(t, x).values.Keys == CodesOf(done + [x])
    ensures forall c :: c in AddToGroup(t, x).values ==> AddToGroup(t, x).values[c] == MembersWith(done + [x], c)
  {
    var code := x.invitationCode;
    CodesOfSnoc(done, x);
    if code !in t.values {
      MembersWithAbsent(done, code);
    }
    forall c | c in CodesOf(done + [x])
      ensures MembersWith(done + [x], c) == MembersWith(done, c) + (if code == c then [x] else [])
    {
      MembersWithSnoc(done, x, c);
    }
  }

  /**
   * `groupedInvitations`: an empty accumulator object, then for each fetched individual a new
   * empty list under its code when the code is not a key yet, and a push onto that list.
   */
  method GroupByCode(individuals: seq<Individual>) returns (grouped: CodeTable)
    ensures grouped == Grouped(individuals)
  {
    var keys: seq<string> := [];
    var groups: map<string, seq<Individual>> := map[];
    for i := 0 to |individuals|
      invariant CodeTable(keys, groups) == Grouped(individuals[..i])
    {
      var individual := individuals[i];
      var code := individual.invitationCode;
      PrefixSnoc(individuals, i);
      assert individuals[..i + 1][..i] == individuals[..i];
      if code !in groups {
        groups := groups[code := []];
        keys := keys + [code];
      }
      groups := groups[code := groups[code] + [individual]];
    }
    assert individuals[..|individuals|] == individuals;
    grouped := CodeTable(keys, groups);
  }

  // ---------------------------------------------------------------------------------------
  // Flattening an object's values, and the partition property
  // ---------------------------------------------------------------------------------------

  /** `Object.values(t).flat()` for the keys `keys`: the member lists concatenated in key order. */
  function Flat(keys: seq<string>, values: map<string, seq<Individual>>): seq<Individual>
    requires forall k :: k in keys ==> k in values
  {
    if keys == [] then [] else Flat(keys[..|keys| - 1], values) + values[keys[|keys| - 1]]
  }

  /** Flattening a concatenation of key lists concatenates the flattenings. */
  lemma {:induction false} FlatAppend(a: seq<string>, b: seq<string>, values: map<string, seq<Individual>>)
    requires forall k :: k in a ==> k in values
    requires forall k :: k in b ==> k in values
    ensures forall k :: k in a + b ==> k in values
    ensures Flat(a + b, values) == Flat(a, values) + Flat(b, values)
  {
    if b != [] {
      var init, last := b[..|b| - 1], b[|b| - 1];
      assert b == init + [last];
      assert a + b == (a + init) + [last];
      FlatAppend(a, init, values);
      FlatSnoc(a + init, last, values);
      FlatSnoc(init, last, values);
      AppendAssoc(Flat(a, values), Flat(init, values), values[last]);
    } else {
      assert a + b == a;
    }
  }

  /** Flattening one more key appends that key's group. */
  lemma FlatSnoc(keys: seq<string>, k: string, values: map<string, seq<Individual>>)
    requires forall x :: x in keys ==> x in values
    requires k in values
    ensures forall x :: x in keys + [k] ==> x in values
    ensures Flat(keys + [k], values) == Flat(keys, values) + values[k]
  {
    assert (keys + [k])[..|keys|] == keys;
  }

  /** Flattening with one key taken out of the middle loses exactly that key's group. */
  lemma FlatWithout(p: seq<string>, last: string, q: seq<string>, values: map<string, seq<Individual>>)
    requires forall k :: k in p + [last] + q ==> k in values
    ensures forall k :: k in p + q ==> k in values
    ensures multiset(Flat(p + [last] + q, values)) == multiset(Flat(p + q, values)) + multiset(values[last])
  {
    assert forall k :: k in p ==> k in p + [last] + q;
    assert forall k :: k in q ==> k in p + [last] + q;
    assert last in p + [last] + q;
    FlatSnoc(p, last, values);
    FlatAppend(p + [last], q, values);
    FlatAppend(p, q, values);
    assert Flat(p + [last] + q, values) == Flat(p, values) + values[last] + Flat(q, values);
  }

  /** The multiset of flattened members does not depend on the order the keys are visited in. */
  lemma {:induction false} FlatPermutation(a: seq<string>, b: seq<string>, values: map<string, seq<Individual>>)
    requires forall k :: k in a ==> k in values
    requires multiset(a) == multiset(b)
    ensures forall k :: k in b ==> k in values
    ensures multiset(Flat(a, values)) == multiset(Flat(b, values))
    decreases |a|
  {
    forall k | k in b
      ensures k in values
    {
      assert k in multiset(b);
    }
    if a != [] {
      var last := a[|a| - 1];
      var init := a[..|a| - 1];
      assert a == init + [last];
      assert last in multiset(b);
      var j :| 0 <= j < |b| && b[j] == last;
      var p, q := b[..j], b[j + 1..];
      assert b == p + [last] + q;
      RemoveMatching(init, last, b, j);
      FlatPermutation(init, p + q, values);
      FlatWithout(p, last, q, values);
      assert Flat(a, values) == Flat(init, values) + values[last];
    }
  }

  /** Concatenating each code's group over a list of distinct codes. */
  function FlattenGroups(codes: seq<string>, xs: seq<Individual>): seq<Individual> {
    if codes == [] then [] else FlattenGroups(codes[..|codes| - 1], xs) + MembersWith(xs, codes[|codes| - 1])
  }

  /** Adding one individual to the input adds it once to the flattened groups, when its code is listed. */
  lemma {:induction false} FlattenGroupsSnoc(codes: seq<string>, xs: seq<Individual>, x: Individual)
    requires NoDuplicates(codes)
    ensures multiset(FlattenGroups(codes, xs + [x]))
         == multiset(FlattenGroups(codes, xs)) + (if x.invitationCode in codes then multiset{x} else multiset{})
  {
    if codes != [] {
      var init, code := codes[..|codes| - 1], codes[|codes| - 1];
      assert codes == init + [code];
      FlattenGroupsSnoc(init, xs, x);
      FilterSnoc(xs, x, HasCode(code));
    }
  }

  /** Grouping loses and duplicates nobody: the groups, concatenated, are a rearrangement of the input. */
  lemma {:induction false} GroupsPartition(xs: seq<Individual>)
    ensures multiset(FlattenGroups(DistinctCodes(xs), xs)) == multiset(xs)
  {
    if xs != [] {
      var init, x := xs[..|xs| - 1], xs[|xs| - 1];
      assert xs == init + [x];
      GroupsPartition(init);
      var codes, code := DistinctCodes(init), x.invitationCode;
      FlattenGroupsSnoc(codes, init, x);
      DistinctCodesSnoc(init, x);
      if code !in codes {
        MembersWithAbsent(init, code);
        MembersWithSnoc(init, x, code);
        FlattenGroupsSnocCode(codes, code, xs);
      }
    }
  }

  /** The codes of a list extended by one individual: its code is added at the end when new. */
  lemma DistinctCodesSnoc(xs: seq<Individual>, x: Individual)
    ensures DistinctCodes(xs + [x]) == if x.invitationCode in DistinctCodes(xs) then DistinctCodes(xs)
                                       else DistinctCodes(xs) + [x.invitationCode]
  {
    assert (xs + [x])[..|xs|] == xs;
  }

  /** The position at which a code first occurs in the list. */
  function FirstIndex(xs: seq<Individual>, c: string): (i: nat)
    requires c in CodesOf(xs)
    ensures i < |xs| && xs[i].invitationCode == c
    ensures forall j :: 0 <= j < i ==> xs[j].invitationCode != c
  {
    var init, last := xs[..|xs| - 1], xs[|xs| - 1];
    assert xs == init + [last];
    assert CodesOf(xs) == CodesOf(init) + {last.invitationCode};
    if c in CodesOf(init) then FirstIndex(init, c)
    else
      assert forall j :: 0 <= j < |init| ==> init[j] in init;
      |xs| - 1
  }

  /** Extending the list does not move the first occurrence of a code it already had. */
  lemma FirstIndexSnoc(xs: seq<Individual>, x: Individual, c: string)
    requires c in CodesOf(xs)
    ensures c in CodesOf(xs + [x]) && FirstIndex(xs + [x], c) == FirstIndex(xs, c)
  {
    assert (xs + [x])[..|xs|] == xs;
    assert CodesOf(xs + [x]) == CodesOf(xs) + {x.invitationCode};
  }

  /** The codes come in first-occurrence order: a code listed earlier first occurs before a code listed later. */
  lemma {:induction false} DistinctCodesInOrder(xs: seq<Individual>)
    ensures var r := DistinctCodes(xs);
            forall a, b :: 0 <= a < b < |r| ==> FirstIndex(xs, r[a]) < FirstIndex(xs, r[b])
  {
    if xs != [] {
      var init, x := xs[..|xs| - 1], xs[|xs| - 1];
      assert xs == init + [x];
      DistinctCodesInOrder(init);
      DistinctCodesSnoc(init, x);
      var prev, r := DistinctCodes(init), DistinctCodes(xs);
      forall a, b | 0 <= a < b < |r|
        ensures FirstIndex(xs, r[a]) < FirstIndex(xs, r[b])
      {
        FirstIndexSnoc(init, x, prev[a]);
        if b < |prev| {
          FirstIndexSnoc(init, x, prev[b]);
        }
      }
    }
  }

  /** Flattening one more code appends that code's group. */
  lemma FlattenGroupsSnocCode(codes: seq<string>, code: string, xs: seq<Individual>)
    ensures FlattenGroups(codes + [code], xs) == FlattenGroups(codes, xs) + MembersWith(xs, code)
  {
    assert (codes + [code])[..|codes|] == codes;
  }

  /** Looking the codes up in an object holding each code's group gives the same lists as filtering by code. */
  lemma {:induction false} FlatOfGroups(codes: seq<string>, values: map<string, seq<Individual>>, xs: seq<Individual>)
    requires forall c :: c in codes ==> c in values && values[c] == MembersWith(xs, c)
    ensures Flat(codes, values) == FlattenGroups(codes, xs)
  {
    if codes != [] {
      FlatOfGroups(codes[..|codes| - 1], values, xs);
    }
  }

  /** Every individual sits in the group of its own code, and a group holds only individuals carrying its code. */
  lemma GroupingPlacesEachIndividual(xs: seq<Individual>)
    ensures forall x :: x in xs ==> x.invitationCode in Grouped(xs).values && x in Grouped(xs).values[x.invitationCode]
    ensures forall c, x :: c in Grouped(xs).values && x in Grouped(xs).values[c] ==> x in xs && x.invitationCode == c
  {
    GroupedMeaning(xs);
    var values := Grouped(xs).values;
    forall c | c in values
      ensures forall x :: x in values[c] <==> x in xs && x.invitationCode == c
    {
      FilterMembership(xs, HasCode(c));
    }
  }

  /** Within a group, individuals keep the order in which they were fetched. */
  lemma GroupsKeepInputOrder(xs: seq<Individual>)
    ensures forall c :: c in Grouped(xs).values ==> IsSubsequence(Grouped(xs).values[c], xs)
  {
    GroupedMeaning(xs);
    forall c | c in Grouped(xs).values
      ensures IsSubsequence(Grouped(xs).values[c], xs)
    {
      FilterIsSubsequence(xs, HasCode(c));
    }
  }

  /** The groups together hold each fetched individual exactly as often as the fetched list does. */
  lemma GroupingPartitions(xs: seq<Individual>)
    ensures forall k :: k in Grouped(xs).keys ==> k in Grouped(xs).values
    ensures multiset(Flat(Grouped(xs).keys, Grouped(xs).values)) == multiset(xs)
    ensures |Flat(Grouped(xs).keys, Grouped(xs).values)| == |xs|
  {
    GroupedMeaning(xs);
    GroupsPartition(xs);
    FlatOfGroups(DistinctCodes(xs), Grouped(xs).values, xs);
    assert |multiset(xs)| == |xs|;
  }

  /** Setting a property under a key not in `keys` does not change what `keys` flatten to. */
  lemma {:induction false} FlatUpdateOther(keys: seq<string>, values: map<string, seq<Individual>>, k: string, v: seq<Individual>)
    requires forall x :: x in keys ==> x in values
    requires k !in keys
    ensures Flat(keys, values[k := v]) == Flat(keys, values)
  {
    if keys != [] {
      FlatUpdateOther(keys[..|keys| - 1], values, k, v);
    }
  }
}
