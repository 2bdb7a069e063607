/** The decision reducer: at the end of a window a side's label list is
    reduced to `Counter(labels).most_common(1)[0]`, or to "no detection" when
    the list is empty.

    `Counter` keeps its keys in first-insertion order, and `most_common(1)`
    is `max` over those keys by count, which keeps the first key it meets
    with the largest count.  So among labels tied at the largest count the
    one that occurs first in the list wins. */
module MostCommon {

  type Label = string

  /** What one side reports at the end of a window. */
  datatype Decision = NoDetection | MostFrequent(name: Label, count: nat)

  /** A `Counter`: its keys in the order they were first inserted, and the
      count of each key. */
  datatype Tally = Tally(keys: seq<Label>, counts: map<Label, nat>) {

    /** `counter[x]`: a label never counted has count zero. */
    function Get(x: Label): nat
    {
      if x in counts then counts[x] else 0
    }
  }

  /** The number of times `x` occurs in `s`. */
  function Occurrences(s: seq<Label>, x: Label): nat
  {
    multiset(s)[x]
  }

  /** The position of the first occurrence of `x` in `s`. */
  function FirstIndex(s: seq<Label>, x: Label): (i: nat)
    requires x in s
    ensures i < |s| && s[i] == x
    ensures forall j :: 0 <= j < i ==> s[j] != x
  {
    var init := s[..|s| - 1];
    if x in init then FirstIndex(init, x) else |s| - 1
  }

  /** Counting one more occurrence of `x`: the count of `x` goes up by one,
      every other count stays, and the keys already there keep their order,
      with `x` appended after them when it is new. */
  function Add(t: Tally, x: Label): (r: Tally)
    ensures r.Get(x) == t.Get(x) + 1
    ensures forall y :: y != x ==> r.Get(y) == t.Get(y)
    ensures r.keys == if x in t.counts then t.keys else t.keys + [x]
  {
    if x in t.counts then Tally(t.keys, t.counts[x := t.counts[x] + 1])
    else Tally(t.keys + [x], t.counts[x := 1])
  }

  /** `Counter(s)`: the labels of `s` counted from left to right. */
  function Count(s: seq<Label>): (t: Tally)
    ensures forall k :: k in t.keys ==> k in t.counts
    ensures s != [] ==> t.keys != []
  {
    if s == [] then Tally([], map[])
    else Add(Count(s[..|s| - 1]), s[|s| - 1])
  }

  /** `max(keys, key=counts.get)`: the position of the first key whose count
      is the largest.  `max` walks the keys in order and replaces its current
      best only by a key with a strictly larger count. */
  function MaxIndex(keys: seq<Label>, counts: map<Label, nat>): (i: nat)
    requires keys != []
    requires forall k :: k in keys ==> k in counts
    ensures i < |keys|
    ensures forall j :: 0 <= j < |keys| ==> counts[keys[j]] <= counts[keys[i]]
    ensures forall j :: 0 <= j < i ==> counts[keys[j]] < counts[keys[i]]
  {
    if |keys| == 1 then 0
    else
      var best := MaxIndex(keys[..|keys| - 1], counts);
      if counts[keys[|keys| - 1]] > counts[keys[best]] then |keys| - 1 else best
  }

  /** The per-side reduction: "no detection" for an empty list, otherwise
      `Counter(labels).most_common(1)[0]`.  What it reports meets the
      specification `IsMostCommon`. */
  function Decide(labels: seq<Label>): (d: Decision)
    ensures IsMostCommon(labels, d)
  {
    if labels == [] then NoDetection
    else
      CounterWinnerIsMostCommon(labels);
      var t := Count(labels);
      var k := t.keys[MaxIndex(t.keys, t.counts)];
      MostFrequent(k, t.counts[k])
  }

  /** What the reduction is meant to report, independently of how `Counter`
      computes it: nothing for an empty list; otherwise a label of the list
      with its number of occurrences, such that no label occurs more often,
      and every label that occurs as often first occurs no earlier. */
  ghost predicate IsMostCommon(labels: seq<Label>, d: Decision)
  {
    match d
    case NoDetection => labels == []
    case MostFrequent(l, c) =>
      && l in labels
      && c == Occurrences(labels, l)
      && (forall x :: x in labels ==> Occurrences(labels, x) <= c)
      && (forall x :: x in labels && Occurrences(labels, x) == c ==> FirstIndex(labels, l) <= FirstIndex(labels, x))
  }

  /** The keys of `Counter(s)` are exactly the labels of `s`. */
  lemma {:induction false} CountKeys(s: seq<Label>)
    ensures forall x :: x in Count(s).counts <==> x in s
    ensures forall x :: x in Count(s).keys <==> x in s
  {
    if s != [] {
      var init, last := s[..|s| - 1], s[|s| - 1];
      CountKeys(init);
      assert s == init + [last];
    }
  }

  /** `Counter(s)` counts every label of `s` correctly. */
  lemma {:induction false} CountCounts(s: seq<Label>)
    ensures forall x :: x in s ==> x in Count(s).counts && Count(s).counts[x] == Occurrences(s, x)
  {
    if s != [] {
      var init, last := s[..|s| - 1], s[|s| - 1];
      CountKeys(init);
      CountCounts(init);
      assert s == init + [last];
      assert multiset(s) == multiset(init) + multiset{last};
    }
  }

  /** A label that already occurs before the last position keeps its first index. */
  lemma FirstIndexOfInit(s: seq<Label>, x: Label)
    requires s != [] && x in s[..|s| - 1]
    ensures x in s && FirstIndex(s, x) == FirstIndex(s[..|s| - 1], x)
  {
  }

  /** The labels in `keys` all occur in `s`, in the order of their first
      occurrence there. */
  ghost predicate InFirstOccurrenceOrder(s: seq<Label>, keys: seq<Label>)
  {
    forall i, j :: 0 <= i < j < |keys| ==> OccursBefore(s, keys[i], keys[j])
  }

  /** `x` and `y` both occur in `s`, and `x` first occurs before `y` does. */
  ghost predicate OccursBefore(s: seq<Label>, x: Label, y: Label)
  {
    x in s && y in s && FirstIndex(s, x) < FirstIndex(s, y)
  }

  /** Appending the last label of `s` as a new key, or leaving the keys as
      they are when it was already counted, keeps them in first-occurrence order. */
  lemma OrderAfterAdd(s: seq<Label>, keys: seq<Label>, next: seq<Label>)
    requires s != []
    requires InFirstOccurrenceOrder(s[..|s| - 1], keys)
    requires forall x :: x in keys ==> x in s[..|s| - 1]
    requires next == if s[|s| - 1] in s[..|s| - 1] then keys else keys + [s[|s| - 1]]
    ensures InFirstOccurrenceOrder(s, next)
  {
    var init, last := s[..|s| - 1], s[|s| - 1];
    forall i, j | 0 <= i < j < |next|
      ensures OccursBefore(s, next[i], next[j])
    {
      assert next[i] == keys[i] && keys[i] in keys;
      FirstIndexOfInit(s, keys[i]);
      if j < |keys| {
        assert next[j] == keys[j] && keys[j] in keys;
        FirstIndexOfInit(s, keys[j]);
        assert OccursBefore(init, keys[i], keys[j]);
      } else {
        assert last !in init && next[j] == last;
        assert FirstIndex(s, keys[i]) < |init| == FirstIndex(s, last);
      }
    }
  }

  /** The keys of `Counter(s)` are in the order of their first occurrence in `s`. */
  lemma {:induction false} CountOrder(s: seq<Label>)
    ensures InFirstOccurrenceOrder(s, Count(s).keys)
  {
    if s != [] {
      var init, last := s[..|s| - 1], s[|s| - 1];
      var t := Count(init);
      CountKeys(init);
      CountOrder(init);
      assert Count(s) == Add(t, last);
      assert Count(s).keys == if last in init then t.keys else t.keys + [last];
      OrderAfterAdd(s, t.keys, Count(s).keys);
    }
  }

  /** The key `most_common(1)` picks from `Counter(labels)` is never
      outnumbered by a label `x` of the list, and occurs no later than `x`
      when they are tied. */
  lemma WinnerBeats(labels: seq<Label>, x: Label)
    requires x in labels
    ensures var t := Count(labels);
            var k := t.keys[MaxIndex(t.keys, t.counts)];
            && Occurrences(labels, x) <= t.counts[k]
            && (Occurrences(labels, x) == t.counts[k] ==> k in labels && FirstIndex(labels, k) <= FirstIndex(labels, x))
  {
    var t := Count(labels);
    CountKeys(labels);
    CountCounts(labels);
    var i := MaxIndex(t.keys, t.counts);
    var k := t.keys[i];
    assert x in t.keys;
    var j :| 0 <= j < |t.keys| && t.keys[j] == x;
    assert t.counts[x] <= t.counts[k];
    if j < i {
      assert t.counts[x] < t.counts[k];
    } else if i < j {
      CountOrder(labels);
      assert OccursBefore(labels, t.keys[i], t.keys[j]);
      assert FirstIndex(labels, t.keys[i]) < FirstIndex(labels, t.keys[j]);
    }
  }

  /** The key `most_common(1)` picks from `Counter(labels)` is what the
      reduction is meant to report. */
  lemma CounterWinnerIsMostCommon(labels: seq<Label>)
    requires labels != []
    ensures var t := Count(labels);
            var k := t.keys[MaxIndex(t.keys, t.counts)];
            IsMostCommon(labels, MostFrequent(k, t.counts[k]))
  {
    var t := Count(labels);
    CountKeys(labels);
    CountCounts(labels);
    var k := t.keys[MaxIndex(t.keys, t.counts)];
    forall x | x in labels
      ensures Occurrences(labels, x) <= t.counts[k]
      ensures Occurrences(labels, x) == t.counts[k] ==> FirstIndex(labels, k) <= FirstIndex(labels, x)
    {
      WinnerBeats(labels, x);
    }
    assert k in labels && t.counts[k] == Occurrences(labels, k);
  }

  /** The reduction is characterised by its specification: the decision it
      makes is the only one that meets it. */
  lemma DecideCharacterised(labels: seq<Label>, d: Decision)
    ensures Decide(labels) == d <==> IsMostCommon(labels, d)
  {
    var e := Decide(labels);
    if IsMostCommon(labels, d) && d.MostFrequent? {
      assert e.MostFrequent?;
      assert d.count == e.count;
      assert FirstIndex(labels, d.name) == FirstIndex(labels, e.name);
    }
  }

  /** An empty list, and only an empty list, gives "no detection". */
  lemma DecideEmpty(labels: seq<Label>)
    ensures Decide(labels) == NoDetection <==> labels == []
  {
    var d := Decide(labels);
    if d.NoDetection? {
      assert IsMostCommon(labels, d);
    }
  }

  /** A tie between two labels goes to the one seen first. */
  lemma TieGoesToFirstSeen()
    ensures Decide(["Laptop", "Phone", "Phone", "Laptop"]) == MostFrequent("Laptop", 2)
  {
    var s := ["Laptop", "Phone", "Phone", "Laptop"];
    assert s[0] == "Laptop" && s[1] == "Phone";
    assert multiset(s) == multiset{"Laptop", "Laptop", "Phone", "Phone"};
    forall x | x in s
      ensures x == "Laptop" || x == "Phone"
    {
    }
    assert FirstIndex(s, "Laptop") == 0;
    DecideCharacterised(s, MostFrequent("Laptop", 2));
  }
}
