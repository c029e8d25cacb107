/**
 * The order in which `Object.keys`, `Object.values` and `Object.entries` visit the own string
 * keys of an ordinary JavaScript object.
 */
module KeyOrder {
  import opened Sequences

  /** Only decimal digits. */
  predicate IsAllDigits(k: string) {
    forall i :: 0 <= i < |k| ==> '0' <= k[i] <= '9'
  }

  /** The number a string of decimal digits denotes (read digit by digit, most significant first). */
  function DigitsValue(k: string): int {
    if k == [] then 0 else DigitsValue(k[..|k| - 1]) * 10 + (k[|k| - 1] as int - '0' as int)
  }

  /** A canonical array index: the shortest decimal form of an integer below 2^32 - 1 ("0", "12345", not "01234"). */
  predicate IsArrayIndex(k: string) {
    && |k| > 0
    && IsAllDigits(k)
    && (k[0] != '0' || |k| == 1)
    && DigitsValue(k) < 0xFFFF_FFFF
  }

  /** Keys in ascending numeric order. */
  predicate SortedByValue(s: seq<string>) {
    forall i, j :: 0 <= i < j < |s| ==> DigitsValue(s[i]) <= DigitsValue(s[j])
  }

  /** Insert one key into a list, before the first key whose value it does not exceed. */
  function InsertByValue(k: string, sorted: seq<string>): (r: seq<string>)
    ensures multiset(r) == multiset(sorted) + multiset{k}
    ensures r[0] == k || (sorted != [] && r[0] == sorted[0])
  {
    if sorted == [] || DigitsValue(k) <= DigitsValue(sorted[0]) then [k] + sorted
    else
      assert sorted == [sorted[0]] + sorted[1..];
      [sorted[0]] + InsertByValue(k, sorted[1..])
  }

  /** Inserting into a list in ascending numeric order keeps it in ascending numeric order. */
  lemma {:induction false} InsertByValueSorted(k: string, sorted: seq<string>)
    requires SortedByValue(sorted)
    ensures SortedByValue(InsertByValue(k, sorted))
  {
    if sorted != [] && DigitsValue(k) > DigitsValue(sorted[0]) {
      InsertByValueSorted(k, sorted[1..]);
      var rest := InsertByValue(k, sorted[1..]);
      assert DigitsValue(sorted[0]) <= DigitsValue(rest[0]);
    }
  }

  /** Keys sorted ascending by numeric value (an insertion sort). */
  function SortByValue(ks: seq<string>): (r: seq<string>)
    ensures multiset(r) == multiset(ks)
    ensures SortedByValue(r)
  {
    if ks == [] then []
    else
      assert ks == ks[..|ks| - 1] + [ks[|ks| - 1]];
      InsertByValueSorted(ks[|ks| - 1], SortByValue(ks[..|ks| - 1]));
      InsertByValue(ks[|ks| - 1], SortByValue(ks[..|ks| - 1]))
  }

  /**
   * The order `Object.keys`/`Object.entries` visit an object's own string keys: array-index keys
   * first in ascending numeric order, then the others in insertion order. A code such as "12345"
   * is listed before every code that contains a letter, whatever the insertion order.
   */
  function EnumerationOrder(keys: seq<string>): (r: seq<string>)
    ensures multiset(r) == multiset(keys)
    ensures NoDuplicates(keys) ==> NoDuplicates(r)
  {
    var r := SortByValue(Filter(keys, IsArrayIndex)) + Filter(keys, Not(IsArrayIndex));
    FilterSplit(keys, IsArrayIndex);
    if NoDuplicates(keys) then NoDuplicatesPermutation(keys, r); r else r
  }

  /**
   * The enumeration lists the array-index keys first, ascending, and then the remaining keys in
   * insertion order.
   */
  lemma EnumerationOrderShape(keys: seq<string>)
    ensures var r := EnumerationOrder(keys);
            var n := |Filter(keys, IsArrayIndex)|;
            && n <= |r|
            && (forall i :: 0 <= i < n ==> IsArrayIndex(r[i]))
            && (forall i, j :: 0 <= i < j < n ==> DigitsValue(r[i]) <= DigitsValue(r[j]))
            && r[n..] == Filter(keys, Not(IsArrayIndex))
  {
    var indices := Filter(keys, IsArrayIndex);
    var sorted := SortByValue(indices);
    FilterMembership(keys, IsArrayIndex);
    assert |sorted| == |multiset(sorted)| == |indices|;
    assert forall i :: 0 <= i < |sorted| ==> sorted[i] in multiset(indices);
  }
}
