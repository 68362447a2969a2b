/**
 * The item lists of the analytics panel: the `counts` record a histogram
 * fills, the `{ label, count }` items it becomes, sorted by count, and the
 * list operations the panel applies to them (`slice`, `filter`, the
 * `reduce` to the largest count).
 */
module Histogram {

  /** `{ label, count }`; the label is `name` here. */
  datatype AnalyticsItem = AnalyticsItem(name: string, count: nat)

  /** The sum of the counts. */
  function Total(items: seq<AnalyticsItem>): nat {
    if items == [] then 0 else items[0].count + Total(items[1..])
  }

  function LabelSet(items: seq<AnalyticsItem>): set<string> {
    set i | 0 <= i < |items| :: items[i].name
  }

  predicate DistinctLabels(items: seq<AnalyticsItem>) {
    forall i, j :: 0 <= i < j < |items| ==> items[i].name != items[j].name
  }

  predicate SortedByCount(items: seq<AnalyticsItem>) {
    forall i, j :: 0 <= i < j < |items| ==> items[i].count >= items[j].count
  }

  predicate AllPositive(items: seq<AnalyticsItem>) {
    forall i :: 0 <= i < |items| ==> items[i].count > 0
  }

  /** The count recorded for `key`: that of the first item carrying it, 0 when none does. */
  function CountOf(items: seq<AnalyticsItem>, key: string): nat {
    if items == [] then 0
    else if items[0].name == key then items[0].count
    else CountOf(items[1..], key)
  }

  /** `Array.prototype.slice(0, n)`: the first `n` items, or all of them when there are fewer. */
  function Take(items: seq<AnalyticsItem>, n: nat): (r: seq<AnalyticsItem>)
    ensures |r| <= n && |r| <= |items| && r == items[..|r|]
    ensures |r| == n || r == items
  {
    if |items| <= n then items else items[..n]
  }

  // ---------------------------------------------------------------------
  // The `counts` record
  // ---------------------------------------------------------------------

  /**
   * `counts[label] = (counts[label] ?? 0) + 1` on a record kept as its
   * entries in insertion order: the entry for `label` goes up by one, or a
   * new entry with count 1 goes at the end.
   */
  function Bump(counts: seq<AnalyticsItem>, key: string): seq<AnalyticsItem> {
    if counts == [] then [AnalyticsItem(key, 1)]
    else if counts[0].name == key then [AnalyticsItem(key, counts[0].count + 1)] + counts[1..]
    else [counts[0]] + Bump(counts[1..], key)
  }

  /** The record after bumping every label in turn, starting from `{}`. */
  function Tally(labels: seq<string>): seq<AnalyticsItem> {
    if labels == [] then []
    else Bump(Tally(labels[..|labels| - 1]), labels[|labels| - 1])
  }

  /** Counting one more label bumps it in the record so far. */
  lemma TallySnoc(labels: seq<string>, x: string)
    ensures Tally(labels + [x]) == Bump(Tally(labels), x)
  {
    assert (labels + [x])[..|labels|] == labels;
  }

  /** `Object.entries(counts).map(...).sort((a, b) => b.count - a.count)`; the sort is stable. */
  function ToAnalyticsItems(counts: seq<AnalyticsItem>): seq<AnalyticsItem> {
    if counts == [] then [] else InsertByCount(counts[0], ToAnalyticsItems(counts[1..]))
  }

  /** Places `x` before the first item whose count is not above its own. */
  function InsertByCount(x: AnalyticsItem, sorted: seq<AnalyticsItem>): seq<AnalyticsItem> {
    if sorted == [] || x.count >= sorted[0].count then [x] + sorted
    else [sorted[0]] + InsertByCount(x, sorted[1..])
  }

  // ---------------------------------------------------------------------
  // One item in front of a list
  // ---------------------------------------------------------------------

  lemma ConsTotal(x: AnalyticsItem, s: seq<AnalyticsItem>)
    ensures Total([x] + s) == x.count + Total(s)
  {
    assert ([x] + s)[1..] == s;
  }

  /** The total of a four-item list. */
  lemma TotalOfFour(a: AnalyticsItem, b: AnalyticsItem, c: AnalyticsItem, d: AnalyticsItem)
    ensures Total([a, b, c, d]) == a.count + b.count + c.count + d.count
  {
    ConsTotal(d, []);
    assert [c, d] == [c] + [d];
    ConsTotal(c, [d]);
    assert [b, c, d] == [b] + [c, d];
    ConsTotal(b, [c, d]);
    assert [a, b, c, d] == [a] + [b, c, d];
    ConsTotal(a, [b, c, d]);
  }

  lemma ConsLabelSet(x: AnalyticsItem, s: seq<AnalyticsItem>)
    ensures LabelSet([x] + s) == {x.name} + LabelSet(s)
  {
    var r := [x] + s;
    forall y | y in LabelSet(s) ensures y in LabelSet(r) {
      var i :| 0 <= i < |s| && s[i].name == y;
      assert r[i + 1] == s[i];
    }
    assert x.name in LabelSet(r) by {
      assert r[0] == x;
    }
    forall y | y in LabelSet(r) ensures y in {x.name} + LabelSet(s) {
      var i :| 0 <= i < |r| && r[i].name == y;
      if i > 0 {
        assert s[i - 1] == r[i];
      }
    }
  }

  lemma ConsDistinct(x: AnalyticsItem, s: seq<AnalyticsItem>)
    ensures DistinctLabels([x] + s) <==> DistinctLabels(s) && x.name !in LabelSet(s)
  {
    var r := [x] + s;
    if DistinctLabels(s) && x.name !in LabelSet(s) {
      forall i, j | 0 <= i < j < |r| ensures r[i].name != r[j].name {
        assert r[j] == s[j - 1];
        if i > 0 { assert r[i] == s[i - 1]; }
      }
    }
    if DistinctLabels(r) {
      forall k | 0 <= k < |s| ensures s[k].name != x.name {
        assert r[0].name != r[k + 1].name;
      }
      forall i, j | 0 <= i < j < |s| ensures s[i].name != s[j].name {
        assert s[i] == r[i + 1] && s[j] == r[j + 1];
      }
    }
  }

  lemma ConsPositive(x: AnalyticsItem, s: seq<AnalyticsItem>)
    ensures AllPositive([x] + s) <==> x.count > 0 && AllPositive(s)
  {
    var r := [x] + s;
    if AllPositive(r) {
      assert r[0] == x;
      forall i | 0 <= i < |s| ensures s[i].count > 0 {
        assert s[i] == r[i + 1];
      }
    }
    if x.count > 0 && AllPositive(s) {
      forall i | 0 <= i < |r| ensures r[i].count > 0 {
        if i > 0 { assert r[i] == s[i - 1]; }
      }
    }
  }

  lemma SortedConsFacts(x: AnalyticsItem, s: seq<AnalyticsItem>)
    ensures SortedByCount([x] + s) <==> SortedByCount(s) && forall j :: 0 <= j < |s| ==> x.count >= s[j].count
  {
    var r := [x] + s;
    if SortedByCount(r) {
      forall i, j | 0 <= i < j < |s| ensures s[i].count >= s[j].count {
        assert s[i] == r[i + 1] && s[j] == r[j + 1];
      }
      forall j | 0 <= j < |s| ensures x.count >= s[j].count {
        assert r[0] == x && s[j] == r[j + 1];
      }
    }
    if SortedByCount(s) && forall j :: 0 <= j < |s| ==> x.count >= s[j].count {
      forall i, j | 0 <= i < j < |r| ensures r[i].count >= r[j].count {
        assert r[j] == s[j - 1];
        if i > 0 { assert r[i] == s[i - 1]; }
      }
    }
  }

  // ---------------------------------------------------------------------
  // Properties of the tally
  // ---------------------------------------------------------------------

  /** One bump adds one to the label's count and leaves every other count alone. */
  lemma {:induction false} BumpCounts(counts: seq<AnalyticsItem>, key: string)
    ensures CountOf(Bump(counts, key), key) == CountOf(counts, key) + 1
    ensures forall other :: other != key ==> CountOf(Bump(counts, key), other) == CountOf(counts, other)
  {
    if counts != [] {
      var rest := counts[1..];
      if counts[0].name == key {
        assert ([AnalyticsItem(key, counts[0].count + 1)] + rest)[1..] == rest;
      } else {
        BumpCounts(rest, key);
        assert ([counts[0]] + Bump(rest, key))[1..] == Bump(rest, key);
      }
    }
  }

  /** One bump adds the label to the record's keys and one to its total. */
  lemma {:induction false} BumpLabels(counts: seq<AnalyticsItem>, key: string)
    ensures LabelSet(Bump(counts, key)) == LabelSet(counts) + {key}
    ensures Total(Bump(counts, key)) == Total(counts) + 1
  {
    if counts == [] {
      ConsLabelSet(AnalyticsItem(key, 1), []);
      ConsTotal(AnalyticsItem(key, 1), []);
    } else {
      var rest := counts[1..];
      assert counts == [counts[0]] + rest;
      ConsLabelSet(counts[0], rest);
      ConsTotal(counts[0], rest);
      if counts[0].name == key {
        ConsLabelSet(AnalyticsItem(key, counts[0].count + 1), rest);
        ConsTotal(AnalyticsItem(key, counts[0].count + 1), rest);
      } else {
        BumpLabels(rest, key);
        ConsLabelSet(counts[0], Bump(rest, key));
        ConsTotal(counts[0], Bump(rest, key));
      }
    }
  }

  /** A bump keeps the record's keys distinct. */
  lemma {:induction false} BumpDistinct(counts: seq<AnalyticsItem>, key: string)
    requires DistinctLabels(counts)
    ensures DistinctLabels(Bump(counts, key))
  {
    if counts == [] {
      ConsDistinct(AnalyticsItem(key, 1), []);
    } else {
      var rest := counts[1..];
      assert counts == [counts[0]] + rest;
      ConsDistinct(counts[0], rest);
      if counts[0].name == key {
        ConsDistinct(AnalyticsItem(key, counts[0].count + 1), rest);
      } else {
        BumpDistinct(rest, key);
        BumpLabels(rest, key);
        ConsDistinct(counts[0], Bump(rest, key));
      }
    }
  }

  /** A bump keeps every count positive. */
  lemma {:induction false} BumpPositive(counts: seq<AnalyticsItem>, key: string)
    requires AllPositive(counts)
    ensures AllPositive(Bump(counts, key))
  {
    if counts == [] {
      ConsPositive(AnalyticsItem(key, 1), []);
    } else {
      var rest := counts[1..];
      assert counts == [counts[0]] + rest;
      ConsPositive(counts[0], rest);
      if counts[0].name == key {
        ConsPositive(AnalyticsItem(key, counts[0].count + 1), rest);
      } else {
        BumpPositive(rest, key);
        ConsPositive(counts[0], Bump(rest, key));
      }
    }
  }

  /**
   * The record built by the `forEach` holds one entry per distinct label,
   * each with the number of times the label occurred, so the counts add up
   * to the number of labels.
   */
  lemma {:induction false} TallyFacts(labels: seq<string>)
    ensures var t := Tally(labels);
            && DistinctLabels(t) && AllPositive(t)
            && (forall key :: CountOf(t, key) == multiset(labels)[key])
            && (forall key :: key in LabelSet(t) <==> key in labels)
            && Total(t) == |labels|
  {
    if labels != [] {
      var front := labels[..|labels| - 1];
      var last := labels[|labels| - 1];
      assert labels == front + [last];
      TallyFacts(front);
      BumpCounts(Tally(front), last);
      BumpLabels(Tally(front), last);
      BumpDistinct(Tally(front), last);
      BumpPositive(Tally(front), last);
      assert multiset(labels) == multiset(front) + multiset{last};
    }
  }

  /** With distinct labels the recorded count of an item's label is the item's own count. */
  lemma {:induction false} CountOfDistinct(items: seq<AnalyticsItem>, i: nat)
    requires DistinctLabels(items) && i < |items|
    ensures CountOf(items, items[i].name) == items[i].count
  {
    if i > 0 {
      assert items == [items[0]] + items[1..];
      ConsDistinct(items[0], items[1..]);
      assert items[i].name in LabelSet(items[1..]) by { assert items[1..][i - 1] == items[i]; }
      CountOfDistinct(items[1..], i - 1);
    }
  }

  /** Every item of a tally carries the number of occurrences of its label. */
  lemma TallyItemCount(labels: seq<string>, x: AnalyticsItem)
    requires x in Tally(labels)
    ensures x.count == multiset(labels)[x.name] && x.count > 0
  {
    var t := Tally(labels);
    TallyFacts(labels);
    var k :| 0 <= k < |t| && t[k] == x;
    CountOfDistinct(t, k);
  }

  // ---------------------------------------------------------------------
  // Properties of the sort
  // ---------------------------------------------------------------------

  /** Inserting adds exactly the one item. */
  lemma {:induction false} InsertPermutes(x: AnalyticsItem, sorted: seq<AnalyticsItem>)
    ensures multiset(InsertByCount(x, sorted)) == multiset{x} + multiset(sorted)
  {
    if sorted != [] && x.count < sorted[0].count {
      var rest := sorted[1..];
      assert sorted == [sorted[0]] + rest;
      InsertPermutes(x, rest);
    }
  }

  /** Inserting into a list sorted by descending count keeps it sorted. */
  lemma {:induction false} InsertSorted(x: AnalyticsItem, sorted: seq<AnalyticsItem>)
    requires SortedByCount(sorted)
    ensures SortedByCount(InsertByCount(x, sorted))
  {
    SortedConsFacts(x, sorted);
    if sorted != [] && x.count < sorted[0].count {
      var rest := sorted[1..];
      var tail := InsertByCount(x, rest);
      assert sorted == [sorted[0]] + rest;
      SortedConsFacts(sorted[0], rest);
      InsertSorted(x, rest);
      InsertPermutes(x, rest);
      forall j | 0 <= j < |tail| ensures sorted[0].count >= tail[j].count {
        assert tail[j] in multiset(tail);
      }
      SortedConsFacts(sorted[0], tail);
    }
  }

  /** Inserting adds the one item's count and label. */
  lemma {:induction false} InsertLabels(x: AnalyticsItem, sorted: seq<AnalyticsItem>)
    ensures Total(InsertByCount(x, sorted)) == x.count + Total(sorted)
    ensures LabelSet(InsertByCount(x, sorted)) == {x.name} + LabelSet(sorted)
  {
    ConsTotal(x, sorted);
    ConsLabelSet(x, sorted);
    if sorted != [] && x.count < sorted[0].count {
      var rest := sorted[1..];
      assert sorted == [sorted[0]] + rest;
      ConsTotal(sorted[0], rest);
      ConsLabelSet(sorted[0], rest);
      InsertLabels(x, rest);
      ConsTotal(sorted[0], InsertByCount(x, rest));
      ConsLabelSet(sorted[0], InsertByCount(x, rest));
    }
  }

  /** Inserting an item with a new label keeps labels distinct. */
  lemma {:induction false} InsertDistinct(x: AnalyticsItem, sorted: seq<AnalyticsItem>)
    requires DistinctLabels(sorted) && x.name !in LabelSet(sorted)
    ensures DistinctLabels(InsertByCount(x, sorted))
  {
    ConsDistinct(x, sorted);
    if sorted != [] && x.count < sorted[0].count {
      var rest := sorted[1..];
      assert sorted == [sorted[0]] + rest;
      ConsDistinct(sorted[0], rest);
      ConsLabelSet(sorted[0], rest);
      InsertDistinct(x, rest);
      InsertLabels(x, rest);
      ConsDistinct(sorted[0], InsertByCount(x, rest));
    }
  }

  /** The sort orders by count and keeps exactly the items it was given. */
  lemma {:induction false} ToAnalyticsItemsSorted(counts: seq<AnalyticsItem>)
    ensures SortedByCount(ToAnalyticsItems(counts))
    ensures multiset(ToAnalyticsItems(counts)) == multiset(counts)
  {
    if counts != [] {
      ToAnalyticsItemsSorted(counts[1..]);
      InsertSorted(counts[0], ToAnalyticsItems(counts[1..]));
      InsertPermutes(counts[0], ToAnalyticsItems(counts[1..]));
      assert counts == [counts[0]] + counts[1..];
    }
  }

  /** The sort keeps the total and the labels, and distinct labels stay distinct. */
  lemma {:induction false} ToAnalyticsItemsShape(counts: seq<AnalyticsItem>)
    ensures Total(ToAnalyticsItems(counts)) == Total(counts)
    ensures LabelSet(ToAnalyticsItems(counts)) == LabelSet(counts)
    ensures DistinctLabels(counts) ==> DistinctLabels(ToAnalyticsItems(counts))
  {
    if counts != [] {
      var rest := ToAnalyticsItems(counts[1..]);
      ToAnalyticsItemsShape(counts[1..]);
      InsertLabels(counts[0], rest);
      assert counts == [counts[0]] + counts[1..];
      ConsTotal(counts[0], counts[1..]);
      ConsLabelSet(counts[0], counts[1..]);
      if DistinctLabels(counts) {
        ConsDistinct(counts[0], counts[1..]);
        InsertDistinct(counts[0], rest);
      }
    }
  }

  /**
   * `toAnalyticsItems` returns the record's entries ordered by count,
   * largest first: the same items, so the same total and labels, and
   * distinct labels stay distinct.
   */
  lemma ToAnalyticsItemsFacts(counts: seq<AnalyticsItem>)
    ensures var r := ToAnalyticsItems(counts);
            && SortedByCount(r)
            && multiset(r) == multiset(counts)
            && Total(r) == Total(counts)
            && LabelSet(r) == LabelSet(counts)
            && (DistinctLabels(counts) ==> DistinctLabels(r))
  {
    ToAnalyticsItemsSorted(counts);
    ToAnalyticsItemsShape(counts);
  }

  /**
   * The items of a sorted tally: labels distinct and in one-to-one
   * correspondence with the labels seen, each with its number of
   * occurrences, largest first.
   */
  lemma SortedTallyFacts(labels: seq<string>)
    ensures var r := ToAnalyticsItems(Tally(labels));
            && SortedByCount(r) && DistinctLabels(r) && AllPositive(r)
            && (forall i :: 0 <= i < |r| ==> r[i].count == multiset(labels)[r[i].name])
            && (forall key :: key in labels <==> key in LabelSet(r))
            && Total(r) == |labels|
  {
    var t := Tally(labels);
    var r := ToAnalyticsItems(t);
    TallyFacts(labels);
    ToAnalyticsItemsFacts(t);
    forall i | 0 <= i < |r| ensures r[i].count == multiset(labels)[r[i].name] && r[i].count > 0 {
      assert r[i] in multiset(r);
      TallyItemCount(labels, r[i]);
    }
  }

  /**
   * The first `n` items of a sorted tally: each with its label's number of
   * occurrences, every label when fewer than `n` are kept, and no label
   * left out occurring more often than a kept one.
   */
  lemma TakeSortedTally(labels: seq<string>, n: nat)
    ensures var r := Take(ToAnalyticsItems(Tally(labels)), n);
            && SortedByCount(r) && DistinctLabels(r) && AllPositive(r)
            && (forall i :: 0 <= i < |r| ==> r[i].count == multiset(labels)[r[i].name])
            && (|r| < n ==> forall key :: key in labels <==> key in LabelSet(r))
            && (forall i, key :: 0 <= i < |r| && key in labels && key !in LabelSet(r)
                  ==> multiset(labels)[key] <= r[i].count)
  {
    var all := ToAnalyticsItems(Tally(labels));
    var r := Take(all, n);
    SortedTallyFacts(labels);
    assert forall i :: 0 <= i < |r| ==> r[i] == all[i];
    TakeDropsLess(labels, n);
  }

  /** No label left out of the first `n` items of a sorted tally occurs more often than a kept one. */
  lemma TakeDropsLess(labels: seq<string>, n: nat)
    ensures var r := Take(ToAnalyticsItems(Tally(labels)), n);
            forall i, key :: 0 <= i < |r| && key in labels && key !in LabelSet(r)
              ==> multiset(labels)[key] <= r[i].count
  {
    var all := ToAnalyticsItems(Tally(labels));
    var r := Take(all, n);
    SortedTallyFacts(labels);
    forall i, key | 0 <= i < |r| && key in labels && key !in LabelSet(r)
      ensures multiset(labels)[key] <= r[i].count
    {
      var j :| 0 <= j < |all| && all[j].name == key;
      DroppedBelowKept(all, r, i, j);
    }
  }

  /** In a list sorted by count, an item left out of a prefix counts no more than any item kept. */
  lemma DroppedBelowKept(all: seq<AnalyticsItem>, r: seq<AnalyticsItem>, i: nat, j: nat)
    requires SortedByCount(all) && |r| <= |all| && r == all[..|r|]
    requires i < |r| && j < |all| && all[j].name !in LabelSet(r)
    ensures all[j].count <= r[i].count
  {
    assert forall t :: 0 <= t < |r| ==> all[t].name == r[t].name && r[t].name in LabelSet(r);
    assert i < j;
  }

  /** A sorted tally, cut or not, starts with an item exactly when there was a label, and that item's label occurs most often. */
  lemma LeadOfSortedTally(labels: seq<string>, n: nat)
    requires n > 0
    ensures var r := Take(ToAnalyticsItems(Tally(labels)), n);
            && (r != [] <==> labels != [])
            && (r != [] ==> forall key :: key in labels ==> multiset(labels)[key] <= r[0].count)
  {
    var all := ToAnalyticsItems(Tally(labels));
    var r := Take(all, n);
    SortedTallyFacts(labels);
    TakeSortedTally(labels, n);
    if labels != [] {
      assert labels[0] in LabelSet(all);
    }
    if r != [] {
      forall key | key in labels ensures multiset(labels)[key] <= r[0].count {
        if key in LabelSet(r) {
          var i :| 0 <= i < |r| && r[i].name == key;
        }
      }
    }
  }

  // ---------------------------------------------------------------------
  // Largest count
  // ---------------------------------------------------------------------

  /** `data.reduce((max, item) => Math.max(max, item.count), 0)`. */
  function MaxCount(items: seq<AnalyticsItem>): nat {
    if items == [] then 0
    else
      var before := MaxCount(items[..|items| - 1]);
      var last := items[|items| - 1].count;
      if last > before then last else before
  }

  /** The largest count of the items, and 0 when there are none. */
  lemma {:induction false} MaxCountFacts(items: seq<AnalyticsItem>)
    ensures forall i :: 0 <= i < |items| ==> items[i].count <= MaxCount(items)
    ensures items == [] ==> MaxCount(items) == 0
    ensures items != [] ==> exists i :: 0 <= i < |items| && items[i].count == MaxCount(items)
  {
    if items != [] {
      var front := items[..|items| - 1];
      MaxCountFacts(front);
      forall i | 0 <= i < |front| ensures items[i].count <= MaxCount(items) {
        assert items[i] == front[i];
      }
      if MaxCount(items) != items[|items| - 1].count {
        var k :| 0 <= k < |front| && front[k].count == MaxCount(front);
        assert items[k] == front[k];
      }
    }
  }

  /** On a list sorted by count the largest count is the first. */
  lemma MaxCountOfSorted(items: seq<AnalyticsItem>)
    requires SortedByCount(items) && items != []
    ensures MaxCount(items) == items[0].count
  {
    MaxCountFacts(items);
  }

  // ---------------------------------------------------------------------
  // Filtering
  // ---------------------------------------------------------------------

  /** `filter((item) => item.count > 0)`. */
  function Populated(items: seq<AnalyticsItem>): seq<AnalyticsItem> {
    if items == [] then []
    else if items[0].count > 0 then [items[0]] + Populated(items[1..])
    else Populated(items[1..])
  }

  /** `r` is `s` with some items left out, the rest in their order. */
  predicate Subsequence(r: seq<AnalyticsItem>, s: seq<AnalyticsItem>) {
    r == [] || (s != [] && ((r[0] == s[0] && Subsequence(r[1..], s[1..])) || Subsequence(r, s[1..])))
  }

  /** The filter keeps exactly the items with a positive count, in order, and loses nothing from the total. */
  lemma {:induction false} PopulatedFacts(items: seq<AnalyticsItem>)
    ensures var r := Populated(items);
            && AllPositive(r) && Subsequence(r, items) && Total(r) == Total(items)
            && (forall i :: 0 <= i < |items| && items[i].count > 0 ==> items[i] in r)
  {
    if items != [] {
      var rest := items[1..];
      PopulatedFacts(rest);
      assert items == [items[0]] + rest;
      ConsTotal(items[0], rest);
      forall i | 0 <= i < |items| && items[i].count > 0 ensures items[i] in Populated(items) {
        if i > 0 { assert rest[i - 1] == items[i]; }
      }
      if items[0].count > 0 {
        ConsTotal(items[0], Populated(rest));
        ConsPositive(items[0], Populated(rest));
      }
    }
  }
}
