/** The correlations with rotor temperature as a labelled vector, and the
    rules that rank it: sort_values(ascending=False), the positional slice
    [1:4], and the listing that skips the "pm" label. */
module Ranking {

  /** One entry of a labelled Series: a column name and its value. */
  datatype Entry = Entry(column: string, value: real)

  predicate NonIncreasing(s: seq<Entry>) {
    forall i, j :: 0 <= i < j < |s| ==> s[i].value >= s[j].value
  }

  /** Pairs each column with its value, in column order. */
  function Label(columns: seq<string>, values: seq<real>): (r: seq<Entry>)
    requires |columns| == |values|
    ensures |r| == |columns|
    ensures forall i :: 0 <= i < |r| ==> r[i] == Entry(columns[i], values[i])
  {
    seq(|columns|, i requires 0 <= i < |columns| => Entry(columns[i], values[i]))
  }

  /** Inserts e after every leading entry whose value is at least e's. */
  function Insert(e: Entry, s: seq<Entry>): (r: seq<Entry>)
    ensures |r| == |s| + 1
  {
    if |s| == 0 then [e]
    else if e.value > s[0].value then [e] + s
    else [s[0]] + Insert(e, s[1..])
  }

  /** Insertion adds exactly e to the multiset of entries. */
  lemma {:induction false} InsertMultiset(e: Entry, s: seq<Entry>)
    ensures multiset(Insert(e, s)) == multiset(s) + multiset{e}
  {
    if |s| > 0 && e.value <= s[0].value {
      InsertMultiset(e, s[1..]);
      assert s == [s[0]] + s[1..];
    }
  }

  /** Every entry of the result is e or an entry of s. */
  lemma {:induction false} InsertMembers(e: Entry, s: seq<Entry>)
    ensures forall k :: 0 <= k < |Insert(e, s)| ==> Insert(e, s)[k] == e || Insert(e, s)[k] in s
  {
    if |s| > 0 && e.value <= s[0].value {
      InsertMembers(e, s[1..]);
      var rest := Insert(e, s[1..]);
      assert forall k :: 0 <= k < |rest| ==> rest[k] == e || rest[k] in s;
    }
  }

  /** Insertion into a non-increasing list keeps it non-increasing. */
  lemma {:induction false} InsertKeepsOrder(e: Entry, s: seq<Entry>)
    requires NonIncreasing(s)
    ensures NonIncreasing(Insert(e, s))
  {
    if |s| > 0 && e.value <= s[0].value {
      var rest := Insert(e, s[1..]);
      InsertKeepsOrder(e, s[1..]);
      InsertMembers(e, s[1..]);
      assert forall k :: 0 <= k < |rest| ==> s[0].value >= rest[k].value;
    }
  }

  /** Stable descending sort: each entry is inserted after the entries
      already placed with an equal value, so ties keep column order. */
  function SortDescending(s: seq<Entry>): (r: seq<Entry>)
    ensures NonIncreasing(r)
    ensures multiset(r) == multiset(s)
  {
    if |s| == 0 then []
    else
      var init := s[..|s| - 1];
      assert s == init + [s[|s| - 1]];
      var sorted := SortDescending(init);
      InsertKeepsOrder(s[|s| - 1], sorted);
      InsertMultiset(s[|s| - 1], sorted);
      Insert(s[|s| - 1], sorted)
  }

  /** The positional slice [1:4] of a Series, clipped to its length. */
  function PositionsOneToThree(s: seq<Entry>): (r: seq<Entry>)
    ensures |r| <= 3
    ensures |r| == if |s| <= 1 then 0 else if |s| >= 4 then 3 else |s| - 1
    ensures forall k :: 0 <= k < |r| ==> r[k] == s[k + 1]
  {
    var lo := if |s| < 1 then |s| else 1;
    var hi := if |s| < 4 then |s| else 4;
    s[lo..hi]
  }

  lemma TopKeepsOrder(s: seq<Entry>)
    requires NonIncreasing(s)
    ensures NonIncreasing(PositionsOneToThree(s))
  {
  }

  /** The entries not labelled name, in order. */
  function Without(s: seq<Entry>, name: string): (r: seq<Entry>)
    ensures forall k :: 0 <= k < |r| ==> r[k] in s && r[k].column != name
    ensures forall e :: e in s && e.column != name ==> e in r
  {
    if |s| == 0 then []
    else
      var rest := Without(s[1..], name);
      assert forall e :: e in s ==> e == s[0] || e in s[1..];
      if s[0].column == name then rest else [s[0]] + rest
  }

  /** Dropping entries from a non-increasing list leaves it non-increasing. */
  lemma {:induction false} WithoutKeepsOrder(s: seq<Entry>, name: string)
    requires NonIncreasing(s)
    ensures NonIncreasing(Without(s, name))
  {
    if |s| > 0 {
      WithoutKeepsOrder(s[1..], name);
      var rest := Without(s[1..], name);
      if s[0].column != name {
        forall k | 0 <= k < |rest| ensures s[0].value >= rest[k].value {
          var j :| 0 <= j < |s[1..]| && s[1..][j] == rest[k];
          assert s[j + 1] == rest[k];
        }
      }
    }
  }

  /** Filtering commutes with reordering: what remains of a permutation is a
      permutation of what remains. */
  lemma {:induction false} WithoutMultiset(s: seq<Entry>, name: string, e: Entry)
    ensures multiset(Without(s, name))[e] == if e.column == name then 0 else multiset(s)[e]
  {
    if |s| > 0 {
      WithoutMultiset(s[1..], name, e);
      assert s == [s[0]] + s[1..];
    }
  }

  /** An entry found at two positions occurs at least twice. */
  lemma RepeatedEntry(s: seq<Entry>, i: nat, j: nat)
    requires i < j < |s| && s[i] == s[j]
    ensures multiset(s)[s[i]] >= 2
  {
    assert s == s[..j] + [s[j]] + s[j + 1..];
    assert s[i] in s[..j];
  }

  /** Labelling distinct columns gives each entry at most once. */
  lemma {:induction false} DistinctEntries(columns: seq<string>, values: seq<real>, e: Entry)
    requires |columns| == |values|
    requires forall i, j :: 0 <= i < j < |columns| ==> columns[i] != columns[j]
    ensures multiset(Label(columns, values))[e] <= 1
  {
    if |columns| > 0 {
      var n := |columns| - 1;
      DistinctEntries(columns[..n], values[..n], e);
      assert Label(columns, values) == Label(columns[..n], values[..n]) + [Entry(columns[n], values[n])];
      if Entry(columns[n], values[n]) == e {
        assert e !in Label(columns[..n], values[..n]);
      }
    }
  }

  /** If exactly one entry carries name and its value beats every other,
      the ranking puts it first and nowhere else. */
  lemma SelfRanksFirst(entries: seq<Entry>, ranking: seq<Entry>, name: string, at: nat)
    requires NonIncreasing(ranking) && multiset(ranking) == multiset(entries)
    requires at < |entries| && entries[at].column == name
    requires forall i :: 0 <= i < |entries| && i != at ==> entries[i].column != name
    requires forall i :: 0 <= i < |entries| && i != at ==> entries[i].value < entries[at].value
    requires multiset(entries)[entries[at]] <= 1
    ensures ranking[0].column == name
    ensures forall k :: 1 <= k < |ranking| ==> ranking[k].column != name
  {
    var self := entries[at];
    assert self in multiset(ranking);
    var pos :| 0 <= pos < |ranking| && ranking[pos] == self;
    assert ranking[0] in multiset(entries);
    var first :| 0 <= first < |entries| && entries[first] == ranking[0];
    assert ranking[0].value >= ranking[pos].value;
    assert first == at;
    forall k | 1 <= k < |ranking|
      ensures ranking[k].column != name
    {
      assert ranking[k] in multiset(entries);
      var i :| 0 <= i < |entries| && entries[i] == ranking[k];
      if i == at {
        RepeatedEntry(ranking, 0, k);
        assert false;
      }
    }
  }
}
