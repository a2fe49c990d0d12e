/**
 * Learning priority: the comparator that puts unlearned items first, then
 * items with more errors, then items reviewed longest ago; the stable sort
 * of a copy by it; the review test and the progress percentage.
 */
module Learning {
  import opened Wrappers
  import opened Seqs
  import opened Types

  // ---------------------------------------------------------------------
  // Comparator
  // ---------------------------------------------------------------------

  /** `times === 0 ? 0 : 1`: the unlearned tier sorts first. */
  function Tier(item: WordItem): (t: int)
    ensures t == 0 <==> item.times == 0
    ensures t == 0 || t == 1
  {
    if item.times == 0 then 0 else 1
  }

  /**
   * `new Date(item.last_review || 0).getTime()`: a missing or empty review
   * date is the epoch, anything else goes through the engine's date parser
   * (`None` for an invalid date, whose time is `NaN`).
   */
  function DateOf(parse: DateParser, item: WordItem): (d: Option<int>)
    ensures (item.lastReview.None? || item.lastReview == Some("")) ==> d == Some(0)
    ensures item.lastReview.Some? && item.lastReview.value != "" ==> d == parse(item.lastReview.value)
  {
    match item.lastReview
    case None => Some(0)
    case Some(s) => if s == "" then Some(0) else parse(s)
  }

  /**
   * `compareByLearningPriority(a, b)`. A difference involving an invalid date
   * is `NaN`, which `Array.prototype.sort` reads as 0, so it is 0 here.
   */
  function Compare(parse: DateParser, a: WordItem, b: WordItem): (c: int)
    ensures a.times == 0 && b.times != 0 ==> c < 0
    ensures a.times != 0 && b.times == 0 ==> c > 0
    ensures Tier(a) == Tier(b) && a.errors > b.errors ==> c < 0
    ensures Tier(a) == Tier(b) && a.errors < b.errors ==> c > 0
    ensures Tier(a) == Tier(b) && a.errors == b.errors ==>
      c == (if DateOf(parse, a).Some? && DateOf(parse, b).Some?
            then DateOf(parse, a).value - DateOf(parse, b).value else 0)
  {
    var aUnlearned := Tier(a);
    var bUnlearned := Tier(b);
    if aUnlearned != bUnlearned then aUnlearned - bUnlearned
    else if a.errors != b.errors then b.errors - a.errors
    else
      match (DateOf(parse, a), DateOf(parse, b))
      case (Some(aDate), Some(bDate)) => aDate - bDate
      case _ => 0
  }

  /** Swapping the arguments negates the result. */
  lemma CompareAntisymmetric(parse: DateParser, a: WordItem, b: WordItem)
    ensures Compare(parse, a, b) == -Compare(parse, b, a)
  {
  }

  /** What the comparator looks at: the tier, the error count and the review time. */
  datatype PriorityKey = PriorityKey(tier: int, errors: int, date: Option<int>)

  function Key(parse: DateParser, item: WordItem): PriorityKey {
    PriorityKey(Tier(item), item.errors, DateOf(parse, item))
  }

  /** Items with the same key compare equal; with valid dates, only they do. */
  lemma CompareZero(parse: DateParser, a: WordItem, b: WordItem)
    ensures Key(parse, a) == Key(parse, b) ==> Compare(parse, a, b) == 0
    ensures DateOf(parse, a).Some? && DateOf(parse, b).Some? ==>
      (Compare(parse, a, b) == 0 <==> Key(parse, a) == Key(parse, b))
  {
  }

  /** With valid dates the comparator is a total preorder: it is transitive. */
  lemma CompareTransitive(parse: DateParser, a: WordItem, b: WordItem, c: WordItem)
    requires DateOf(parse, a).Some? && DateOf(parse, b).Some? && DateOf(parse, c).Some?
    requires Compare(parse, a, b) <= 0 && Compare(parse, b, c) <= 0
    ensures Compare(parse, a, c) <= 0
  {
  }

  // ---------------------------------------------------------------------
  // Sort
  // ---------------------------------------------------------------------

  /** Every neighbour pair is in order. */
  predicate AdjacentSorted(parse: DateParser, s: seq<WordItem>) {
    forall k :: 0 <= k < |s| - 1 ==> Compare(parse, s[k], s[k + 1]) <= 0
  }

  /** Every pair is in order. */
  predicate Sorted(parse: DateParser, s: seq<WordItem>) {
    forall i, j :: 0 <= i < j < |s| ==> Compare(parse, s[i], s[j]) <= 0
  }

  /**
   * Inserts `x` after the last element of `s` that does not compare above
   * it: the step of a stable insertion sort.
   */
  function Insert(parse: DateParser, x: WordItem, s: seq<WordItem>): (r: seq<WordItem>)
    ensures multiset(r) == multiset(s) + multiset{x}
    ensures |r| == |s| + 1
    ensures r[|r| - 1] == x || (s != [] && r[|r| - 1] == s[|s| - 1])
    ensures r[|r| - 1] != x ==> Compare(parse, s[|s| - 1], x) > 0
  {
    if s == [] then [x]
    else if Compare(parse, s[|s| - 1], x) > 0 then
      assert s == s[..|s| - 1] + [s[|s| - 1]];
      Insert(parse, x, s[..|s| - 1]) + [s[|s| - 1]]
    else s + [x]
  }

  /**
   * `sortByLearningPriority(words)`: `[...words].sort(compareByLearningPriority)`.
   * The copy means the input is untouched; the sort is stable, so it is the
   * insertion sort that takes the elements in their given order.
   */
  function SortByLearningPriority(parse: DateParser, words: seq<WordItem>): (r: seq<WordItem>)
    ensures multiset(r) == multiset(words)
    ensures |r| == |words|
  {
    if words == [] then []
    else
      assert words == words[..|words| - 1] + [words[|words| - 1]];
      Insert(parse, words[|words| - 1], SortByLearningPriority(parse, words[..|words| - 1]))
  }

  /** Dropping the last element keeps the neighbours in order. */
  lemma InitAdjacentSorted(parse: DateParser, s: seq<WordItem>)
    requires s != [] && AdjacentSorted(parse, s)
    ensures AdjacentSorted(parse, s[..|s| - 1])
  {
    var init := s[..|s| - 1];
    forall k | 0 <= k < |init| - 1
      ensures Compare(parse, init[k], init[k + 1]) <= 0
    {
      assert init[k] == s[k] && init[k + 1] == s[k + 1];
    }
  }

  /** Appending an element no smaller than the last keeps the neighbours in order. */
  lemma SnocAdjacentSorted(parse: DateParser, s: seq<WordItem>, y: WordItem)
    requires AdjacentSorted(parse, s)
    requires s != [] ==> Compare(parse, s[|s| - 1], y) <= 0
    ensures AdjacentSorted(parse, s + [y])
  {
    var r := s + [y];
    forall k | 0 <= k < |r| - 1
      ensures Compare(parse, r[k], r[k + 1]) <= 0
    {
      if k < |s| - 1 {
        assert r[k] == s[k] && r[k + 1] == s[k + 1];
      } else {
        assert r[k] == s[|s| - 1] && r[k + 1] == y;
      }
    }
  }

  lemma {:induction false} InsertAdjacentSorted(parse: DateParser, x: WordItem, s: seq<WordItem>)
    requires AdjacentSorted(parse, s)
    ensures AdjacentSorted(parse, Insert(parse, x, s))
  {
    if s != [] && Compare(parse, s[|s| - 1], x) > 0 {
      var init := s[..|s| - 1];
      InitAdjacentSorted(parse, s);
      InsertAdjacentSorted(parse, x, init);
      var r' := Insert(parse, x, init);
      assert Compare(parse, r'[|r'| - 1], s[|s| - 1]) <= 0 by {
        if r'[|r'| - 1] == x {
          CompareAntisymmetric(parse, s[|s| - 1], x);
        } else {
          assert r'[|r'| - 1] == s[|s| - 2];
        }
      }
      SnocAdjacentSorted(parse, r', s[|s| - 1]);
    } else if s != [] {
      SnocAdjacentSorted(parse, s, x);
    }
  }

  /** Every neighbour pair of the result is in order. */
  lemma {:induction false} SortAdjacentSorted(parse: DateParser, words: seq<WordItem>)
    ensures AdjacentSorted(parse, SortByLearningPriority(parse, words))
  {
    if words != [] {
      SortAdjacentSorted(parse, words[..|words| - 1]);
      InsertAdjacentSorted(parse, words[|words| - 1], SortByLearningPriority(parse, words[..|words| - 1]));
    }
  }

  /** Under a transitive comparator, ordered neighbours mean an ordered sequence. */
  lemma {:induction false} AdjacentToSorted(parse: DateParser, s: seq<WordItem>)
    requires AdjacentSorted(parse, s)
    requires forall k :: 0 <= k < |s| ==> DateOf(parse, s[k]).Some?
    ensures Sorted(parse, s)
  {
    if |s| > 1 {
      var init := s[..|s| - 1];
      assert AdjacentSorted(parse, init) by {
        forall k | 0 <= k < |init| - 1
          ensures Compare(parse, init[k], init[k + 1]) <= 0
        {
          assert init[k] == s[k] && init[k + 1] == s[k + 1];
        }
      }
      AdjacentToSorted(parse, init);
      forall i, j | 0 <= i < j < |s|
        ensures Compare(parse, s[i], s[j]) <= 0
      {
        if j < |s| - 1 {
          assert s[i] == init[i] && s[j] == init[j];
        } else if i < |s| - 2 {
          assert Compare(parse, s[i], s[|s| - 2]) <= 0 by {
            assert s[i] == init[i] && s[|s| - 2] == init[|s| - 2];
          }
          CompareTransitive(parse, s[i], s[|s| - 2], s[j]);
        }
      }
    }
  }

  /** When every review date is valid the result is sorted outright. */
  lemma SortSorted(parse: DateParser, words: seq<WordItem>)
    requires forall k :: 0 <= k < |words| ==> DateOf(parse, words[k]).Some?
    ensures Sorted(parse, SortByLearningPriority(parse, words))
  {
    var r := SortByLearningPriority(parse, words);
    SortAdjacentSorted(parse, words);
    forall k | 0 <= k < |r|
      ensures DateOf(parse, r[k]).Some?
    {
      assert r[k] in multiset(words);
      var i :| 0 <= i < |words| && words[i] == r[k];
    }
    AdjacentToSorted(parse, r);
  }

  /** The items of `s` whose key is `k`, in their order in `s`. */
  function OfKey(parse: DateParser, s: seq<WordItem>, k: PriorityKey): seq<WordItem> {
    if s == [] then []
    else OfKey(parse, s[..|s| - 1], k) + (if Key(parse, s[|s| - 1]) == k then [s[|s| - 1]] else [])
  }

  lemma OfKeySnoc(parse: DateParser, s: seq<WordItem>, y: WordItem, k: PriorityKey)
    ensures OfKey(parse, s + [y], k) == OfKey(parse, s, k) + (if Key(parse, y) == k then [y] else [])
  {
    assert (s + [y])[..|s|] == s;
  }

  /** Two appended pieces of which one is empty commute. */
  lemma AppendSwap<T>(a: seq<T>, x: seq<T>, y: seq<T>)
    requires x == [] || y == []
    ensures a + x + y == a + y + x
  {
  }

  lemma {:induction false} InsertStable(parse: DateParser, x: WordItem, s: seq<WordItem>, k: PriorityKey)
    ensures OfKey(parse, Insert(parse, x, s), k) == OfKey(parse, s, k) + (if Key(parse, x) == k then [x] else [])
  {
    if s == [] {
      OfKeySnoc(parse, [], x, k);
    } else if Compare(parse, s[|s| - 1], x) > 0 {
      var init := s[..|s| - 1];
      var last := s[|s| - 1];
      assert init + [last] == s;
      CompareZero(parse, last, x);
      OfKeySnoc(parse, init, last, k);
      InsertStable(parse, x, init, k);
      OfKeySnoc(parse, Insert(parse, x, init), last, k);
      AppendSwap(OfKey(parse, init, k),
        if Key(parse, x) == k then [x] else [], if Key(parse, last) == k then [last] else []);
    } else {
      OfKeySnoc(parse, s, x, k);
    }
  }

  /**
   * Stability: the items of any one key come out in their input order (with
   * valid dates, these are exactly the items that compare equal).
   */
  lemma {:induction false} SortStable(parse: DateParser, words: seq<WordItem>, k: PriorityKey)
    ensures OfKey(parse, SortByLearningPriority(parse, words), k) == OfKey(parse, words, k)
  {
    if words != [] {
      var init := words[..|words| - 1];
      SortStable(parse, init, k);
      InsertStable(parse, words[|words| - 1], SortByLearningPriority(parse, init), k);
    }
  }

  // ---------------------------------------------------------------------
  // Review and progress
  // ---------------------------------------------------------------------

  /** Milliseconds in a day: `1000 * 60 * 60 * 24`. */
  const DayMs: int := 86400000

  /** The default `daysThreshold`. */
  const DefaultDaysThreshold: real := 7.0

  /**
   * `needsReview(item, daysThreshold)`, with `Date.now()` as `now`. An
   * invalid review date makes the day count `NaN`, and `NaN >= x` is false.
   */
  function NeedsReview(parse: DateParser, item: WordItem, daysThreshold: real, now: int): bool {
    if item.times == 0 then true
    else if item.errors > 0 then true
    else match item.lastReview
      case None => true
      case Some(s) =>
        if s == "" then true
        else match parse(s)
          case None => false
          case Some(lastReview) => (now - lastReview) as real / DayMs as real >= daysThreshold
  }

  /**
   * Never studied, with errors or without a review date means "review";
   * otherwise it is "review" exactly when the time since the review is at
   * least the threshold in days.
   */
  lemma NeedsReviewSpec(parse: DateParser, item: WordItem, daysThreshold: real, now: int)
    ensures item.times == 0 || item.errors > 0 || item.lastReview.None? || item.lastReview == Some("") ==>
      NeedsReview(parse, item, daysThreshold, now)
    ensures item.times != 0 && item.errors <= 0 && item.lastReview.Some? && item.lastReview.value != "" ==>
      (NeedsReview(parse, item, daysThreshold, now) <==>
        parse(item.lastReview.value).Some? &&
        (now - parse(item.lastReview.value).value) as real >= daysThreshold * DayMs as real)
  {
    if item.times != 0 && item.errors <= 0 && item.lastReview.Some? && item.lastReview.value != "" {
      match parse(item.lastReview.value)
      case None =>
      case Some(t) =>
        var elapsed := (now - t) as real;
        DaysAtLeast(elapsed, daysThreshold);
    }
  }

  /** Dividing by the day length compares like multiplying the threshold by it. */
  lemma DaysAtLeast(elapsed: real, threshold: real)
    ensures elapsed / DayMs as real >= threshold <==> elapsed >= threshold * DayMs as real
  {
    var d := DayMs as real;
    assert elapsed / d * d == elapsed;
    if elapsed / d >= threshold {
      assert elapsed / d * d >= threshold * d;
    } else {
      assert elapsed / d * d < threshold * d;
    }
  }

  /** `Math.round`: the nearest integer, halves upward. */
  function Round(x: real): (n: int)
    ensures n as real - 0.5 <= x < n as real + 0.5
  {
    (x + 0.5).Floor
  }

  /** `calculateLearningProgress(item)`: the success rate as a rounded percentage. */
  function CalculateLearningProgress(item: WordItem): int {
    if item.times == 0 then 0
    else
      var totalAttempts := item.times + item.errors;
      if totalAttempts == 0 then 0
      else
        var successRate := item.times as real / totalAttempts as real;
        Round(successRate * 100.0)
  }

  /**
   * Zero before the first study; a percentage in [0, 100] for non-negative
   * counts; 100 when the item has never been answered wrongly.
   */
  lemma ProgressSpec(item: WordItem)
    ensures item.times == 0 ==> CalculateLearningProgress(item) == 0
    ensures item.times >= 0 && item.errors >= 0 ==> 0 <= CalculateLearningProgress(item) <= 100
    ensures item.times != 0 && item.errors == 0 ==> CalculateLearningProgress(item) == 100
  {
    if item.times > 0 && item.errors >= 0 {
      var total := (item.times + item.errors) as real;
      var rate := item.times as real / total;
      assert rate * total == item.times as real;
      assert 0.0 < rate <= 1.0;
      assert 0.0 < rate * 100.0 <= 100.0;
    }
    if item.times != 0 && item.errors == 0 {
      assert item.times as real / item.times as real == 1.0;
    }
  }
}
