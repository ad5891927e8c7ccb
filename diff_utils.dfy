/** The entry prioritizer: a priority per diff entry, and a stable sort of the entries by it. */
module DiffUtils {
  import opened Wrappers
  import opened DiffModel

  /** The fields whose change makes a modified entry rank later, in rank order. */
  const ModifiedPriorityOrder: seq<string> := ["kdbDataUpdateDate", "instructor"]

  /** `xs.indexOf(x)`: the first position of `x`, or -1. */
  function IndexOf(xs: seq<string>, x: string): (r: int)
    ensures -1 <= r < |xs|
    ensures r == -1 <==> x !in xs
    ensures 0 <= r ==> xs[r] == x && x !in xs[..r]
  {
    if xs == [] then -1
    else if xs[0] == x then 0
    else
      var i := IndexOf(xs[1..], x);
      if i == -1 then -1
      else
        assert xs[..i + 1] == [xs[0]] + xs[1..][..i];
        i + 1
  }

  /** The rank a changed key contributes: its position in the priority list plus one, or 0 for
      a key that is not in the list. */
  function KeyRank(key: string): (r: nat)
    ensures r <= |ModifiedPriorityOrder|
    ensures r == 0 <==> key !in ModifiedPriorityOrder
    ensures r > 0 ==> ModifiedPriorityOrder[r - 1] == key
  {
    var index := IndexOf(ModifiedPriorityOrder, key);
    if index == -1 then 0 else index + 1
  }

  /** The ranks of the list itself: the update date ranks 1 and the instructor 2. */
  lemma KeyRankValues(key: string)
    ensures KeyRank("kdbDataUpdateDate") == 1
    ensures KeyRank("instructor") == 2
    ensures key != "kdbDataUpdateDate" && key != "instructor" ==> KeyRank(key) == 0
  {
    assert ModifiedPriorityOrder[0] == "kdbDataUpdateDate";
    assert ModifiedPriorityOrder[1] == "instructor";
  }

  /** The changed keys of an entry that pass the registry filter; none for an added or removed entry. */
  function ChangedKeys(isKey: string -> bool, entry: DiffEntry): seq<string>
  {
    if entry.ModifiedEntry? then Keys(KnownPairs(isKey, entry.diff)) else []
  }

  /** `Math.min(...ps)` for a non-empty list. */
  function Min(ps: seq<nat>): (r: nat)
    requires |ps| > 0
    ensures r in ps
    ensures forall i :: 0 <= i < |ps| ==> r <= ps[i]
  {
    if |ps| == 1 then ps[0]
    else
      var rest := Min(ps[1..]);
      if ps[0] <= rest then ps[0] else rest
  }

  /** The least rank over a non-empty list of keys (`Math.min(...priorities)`). */
  function MinRank(ks: seq<string>): (r: nat)
    requires |ks| > 0
    ensures forall i :: 0 <= i < |ks| ==> r <= KeyRank(ks[i])
    ensures exists i :: 0 <= i < |ks| && KeyRank(ks[i]) == r
  {
    var priorities := seq(|ks|, i requires 0 <= i < |ks| => KeyRank(ks[i]));
    var m := Min(priorities);
    assert forall i :: 0 <= i < |ks| ==> priorities[i] == KeyRank(ks[i]);
    m
  }

  /** The priority of an entry: 0 for an added or removed entry; for a modified entry the least
      rank over its known changed keys, and 0 if it has none. */
  function EntryPriority(isKey: string -> bool, entry: DiffEntry): (r: nat)
    ensures r <= |ModifiedPriorityOrder|
    ensures !entry.ModifiedEntry? ==> r == 0
    ensures ChangedKeys(isKey, entry) == [] ==> r == 0
    ensures forall i :: 0 <= i < |ChangedKeys(isKey, entry)| ==> r <= KeyRank(ChangedKeys(isKey, entry)[i])
    ensures ChangedKeys(isKey, entry) != [] ==>
      exists i :: 0 <= i < |ChangedKeys(isKey, entry)| && KeyRank(ChangedKeys(isKey, entry)[i]) == r
  {
    if !entry.ModifiedEntry? then 0
    else
      var diffKeys := ChangedKeys(isKey, entry);
      if |diffKeys| == 0 then 0 else MinRank(diffKeys)
  }

  /** Keys the registry does not know, wherever they stand in the diff map, leave the priority as it was. */
  lemma PriorityIgnoresUnknownKeys(isKey: string -> bool, value: Record, a: DiffMap, p: (string, Option<Change>), b: DiffMap)
    requires !isKey(p.0)
    ensures EntryPriority(isKey, ModifiedEntry(value, a + [p] + b)) == EntryPriority(isKey, ModifiedEntry(value, a + b))
  {
    UnknownPairIgnored(isKey, a, p, b);
  }

  /** An entry together with its original position and its priority. */
  datatype Ranked = Ranked(entry: DiffEntry, index: nat, priority: nat)

  /** The sort comparator `a.priority - b.priority || a.index - b.index`: JavaScript's `||` gives
      its right operand when the left one is 0. */
  function Compare(a: Ranked, b: Ranked): int
  {
    var byPriority := a.priority - b.priority;
    if byPriority != 0 then byPriority else a.index - b.index
  }

  /** `a` sorts strictly before `b`: lower priority, or equal priority and earlier position. */
  predicate Precedes(a: Ranked, b: Ranked)
  {
    a.priority < b.priority || (a.priority == b.priority && a.index < b.index)
  }

  /** The comparator is negative exactly when `a` precedes `b`, zero exactly when both keys are
      equal, and antisymmetric. */
  lemma CompareMeansPrecedes(a: Ranked, b: Ranked)
    ensures Compare(a, b) < 0 <==> Precedes(a, b)
    ensures Compare(a, b) == 0 <==> a.priority == b.priority && a.index == b.index
    ensures Compare(a, b) == -Compare(b, a)
  {
  }

  /** `entries.map((entry, index) => ({ entry, index, priority }))`. */
  function RankEntries(isKey: string -> bool, entries: seq<DiffEntry>): (r: seq<Ranked>)
    ensures |r| == |entries|
    ensures DistinctIndices(r)
    ensures forall i :: 0 <= i < |r| ==> r[i].index == i && FaithfulRank(isKey, entries, r[i])
  {
    seq(|entries|, i requires 0 <= i < |entries| => Ranked(entries[i], i, EntryPriority(isKey, entries[i])))
  }

  predicate DistinctIndices(s: seq<Ranked>)
  {
    forall i, j :: 0 <= i < j < |s| ==> s[i].index != s[j].index
  }

  predicate StrictlySorted(s: seq<Ranked>)
  {
    forall i, j :: 0 <= i < j < |s| ==> Precedes(s[i], s[j])
  }

  /** `.map(({ entry }) => entry)`. */
  function EntriesOf(s: seq<Ranked>): (r: seq<DiffEntry>)
    ensures |r| == |s| && forall i :: 0 <= i < |s| ==> r[i] == s[i].entry
  {
    if s == [] then [] else [s[0].entry] + EntriesOf(s[1..])
  }

  /** Inserts `x` before the first element it precedes. */
  function Insert(x: Ranked, s: seq<Ranked>): (r: seq<Ranked>)
    ensures multiset(r) == multiset(s) + multiset{x}
  {
    if s == [] || Precedes(x, s[0]) then [x] + s
    else
      assert s == [s[0]] + s[1..];
      [s[0]] + Insert(x, s[1..])
  }

  /** Inserting an element with a fresh position into a sorted list keeps it sorted. */
  lemma {:induction false} InsertSorted(x: Ranked, s: seq<Ranked>)
    requires StrictlySorted(s)
    requires forall y :: y in s ==> y.index != x.index
    ensures StrictlySorted(Insert(x, s))
  {
    if s != [] && !Precedes(x, s[0]) {
      var tail := Insert(x, s[1..]);
      InsertSorted(x, s[1..]);
      forall y | y in tail ensures Precedes(s[0], y) {
        assert y in multiset(tail);
        if y != x {
          assert y in s[1..];
        }
      }
    }
  }

  /** Inserting adds the element's entry to the entries. */
  lemma {:induction false} InsertEntries(x: Ranked, s: seq<Ranked>)
    ensures multiset(EntriesOf(Insert(x, s))) == multiset(EntriesOf(s)) + multiset{x.entry}
  {
    if s == [] || Precedes(x, s[0]) {
      assert EntriesOf([x] + s) == [x.entry] + EntriesOf(s);
    } else {
      var tail := Insert(x, s[1..]);
      InsertEntries(x, s[1..]);
      assert EntriesOf([s[0]] + tail) == [s[0].entry] + EntriesOf(tail);
      assert EntriesOf(s) == [s[0].entry] + EntriesOf(s[1..]);
    }
  }

  /** Insertion sort by the comparator. */
  function SortRanked(s: seq<Ranked>): (r: seq<Ranked>)
    ensures multiset(r) == multiset(s)
  {
    if s == [] then []
    else
      assert s == [s[0]] + s[1..];
      Insert(s[0], SortRanked(s[1..]))
  }

  /** Sorting a list whose positions are distinct gives a strictly sorted list. */
  lemma {:induction false} SortSorted(s: seq<Ranked>)
    requires DistinctIndices(s)
    ensures StrictlySorted(SortRanked(s))
  {
    if s != [] {
      assert DistinctIndices(s[1..]) by {
        forall i, j | 0 <= i < j < |s[1..]| ensures s[1..][i].index != s[1..][j].index {
          assert s[1..][i] == s[i + 1] && s[1..][j] == s[j + 1];
        }
      }
      SortSorted(s[1..]);
      var sorted := SortRanked(s[1..]);
      forall y | y in sorted ensures y.index != s[0].index {
        assert y in multiset(s[1..]);
        var k :| 0 <= k < |s[1..]| && s[1..][k] == y;
        assert s[k + 1] == y;
      }
      InsertSorted(s[0], sorted);
    }
  }

  /** Sorting keeps the entries. */
  lemma {:induction false} SortEntries(s: seq<Ranked>)
    ensures multiset(EntriesOf(SortRanked(s))) == multiset(EntriesOf(s))
  {
    if s != [] {
      SortEntries(s[1..]);
      InsertEntries(s[0], SortRanked(s[1..]));
      assert EntriesOf(s) == [s[0].entry] + EntriesOf(s[1..]);
    }
  }

  /** An element of a ranked list is the entry at its own position with that entry's priority. */
  predicate FaithfulRank(isKey: string -> bool, entries: seq<DiffEntry>, y: Ranked)
  {
    y.index < |entries| && y.entry == entries[y.index] && y.priority == EntryPriority(isKey, entries[y.index])
  }

  /** The sorted ranked list behind `PrioritizeDiffEntries`. */
  function SortedRanks(isKey: string -> bool, entries: seq<DiffEntry>): (r: seq<Ranked>)
    ensures |r| == |entries|
    ensures StrictlySorted(r)
    ensures multiset(EntriesOf(r)) == multiset(entries)
    ensures forall i :: 0 <= i < |r| ==> FaithfulRank(isKey, entries, r[i])
  {
    var ranked := RankEntries(isKey, entries);
    assert EntriesOf(ranked) == entries;
    var sorted := SortRanked(ranked);
    SortSorted(ranked);
    SortEntries(ranked);
    assert |sorted| == |ranked| by {
      assert |multiset(sorted)| == |multiset(ranked)|;
    }
    assert forall i :: 0 <= i < |sorted| ==> FaithfulRank(isKey, entries, sorted[i]) by {
      forall i | 0 <= i < |sorted| ensures FaithfulRank(isKey, entries, sorted[i]) {
        assert sorted[i] in multiset(ranked);
      }
    }
    sorted
  }

  /** Two lists with the same multiset have the same members. */
  lemma SameMembers(a: seq<DiffEntry>, b: seq<DiffEntry>)
    requires multiset(a) == multiset(b)
    ensures forall e :: e in a <==> e in b
  {
    forall e ensures e in a <==> e in b {
      assert e in a <==> e in multiset(a);
      assert e in b <==> e in multiset(b);
    }
  }

  /** The prioritized entries: a permutation of the input ordered by priority, original
      position breaking ties. */
  function PrioritizeDiffEntries(isKey: string -> bool, entries: seq<DiffEntry>): (r: seq<DiffEntry>)
    ensures |r| == |entries|
    ensures multiset(r) == multiset(entries)
    ensures forall e :: e in r <==> e in entries
    ensures forall i, j :: 0 <= i < j < |r| ==> EntryPriority(isKey, r[i]) <= EntryPriority(isKey, r[j])
  {
    var sorted := SortedRanks(isKey, entries);
    var r := EntriesOf(sorted);
    SameMembers(r, entries);
    r
  }

  /** Stability: output position `i` holds the input entry at position `s[i].index`, every input
      position is used once, and entries of equal priority keep their input order. */
  lemma PrioritizeIsStable(isKey: string -> bool, entries: seq<DiffEntry>)
    ensures var r := PrioritizeDiffEntries(isKey, entries);
      var s := SortedRanks(isKey, entries);
      && |s| == |r|
      && (forall i :: 0 <= i < |s| ==> s[i].index < |entries| && r[i] == entries[s[i].index])
      && (forall i, j :: 0 <= i < j < |s| ==> s[i].index != s[j].index)
      && (forall i, j :: 0 <= i < j < |r| && EntryPriority(isKey, r[i]) == EntryPriority(isKey, r[j]) ==>
            s[i].index < s[j].index)
  {
    var s := SortedRanks(isKey, entries);
    assert forall i :: 0 <= i < |s| ==> FaithfulRank(isKey, entries, s[i]);
  }

  /** Two strictly sorted lists with the same elements are the same list. */
  lemma {:induction false} SortedPermutationUnique(a: seq<Ranked>, b: seq<Ranked>)
    requires multiset(a) == multiset(b)
    requires StrictlySorted(a) && StrictlySorted(b)
    ensures a == b
  {
    if a == [] {
      assert |multiset(b)| == 0;
    } else {
      assert a[0] in multiset(b);
      assert b != [];
      assert b[0] in multiset(a);
      assert a == [a[0]] + a[1..];
      assert b == [b[0]] + b[1..];
      assert a[0] == b[0];
      assert multiset(a[1..]) == multiset(a) - multiset{a[0]};
      assert multiset(b[1..]) == multiset(b) - multiset{b[0]};
      SortedPermutationUnique(a[1..], b[1..]);
    }
  }

  /** Any arrangement of the ranked entries that the comparator accepts, i.e. whatever order a
      correct sort produces with it, gives exactly the prioritized entries. */
  lemma PrioritizeMatchesComparator(isKey: string -> bool, entries: seq<DiffEntry>, t: seq<Ranked>)
    requires multiset(t) == multiset(RankEntries(isKey, entries))
    requires forall i, j :: 0 <= i < j < |t| ==> Compare(t[i], t[j]) < 0
    ensures EntriesOf(t) == PrioritizeDiffEntries(isKey, entries)
  {
    assert StrictlySorted(t) by {
      forall i, j | 0 <= i < j < |t| ensures Precedes(t[i], t[j]) {
        CompareMeansPrecedes(t[i], t[j]);
      }
    }
    var ranked := RankEntries(isKey, entries);
    var sorted := SortRanked(ranked);
    assert sorted == SortedRanks(isKey, entries);
    assert multiset(sorted) == multiset(t);
    SortedPermutationUnique(t, sorted);
  }

  /** Prioritizing an already prioritized list changes nothing. */
  lemma PrioritizeIdempotent(isKey: string -> bool, entries: seq<DiffEntry>)
    ensures PrioritizeDiffEntries(isKey, PrioritizeDiffEntries(isKey, entries)) == PrioritizeDiffEntries(isKey, entries)
  {
    var r := PrioritizeDiffEntries(isKey, entries);
    var ranked := RankEntries(isKey, r);
    assert StrictlySorted(ranked) by {
      forall i, j | 0 <= i < j < |ranked| ensures Precedes(ranked[i], ranked[j]) {
        assert ranked[i].priority == EntryPriority(isKey, r[i]) && ranked[j].priority == EntryPriority(isKey, r[j]);
      }
    }
    var sorted := SortRanked(ranked);
    assert sorted == SortedRanks(isKey, r);
    SortedPermutationUnique(sorted, ranked);
    assert EntriesOf(ranked) == r;
  }
}
