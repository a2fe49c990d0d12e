/**
 * Conversion between multi-language rows and pairwise items: the nested
 * `for i / for j / if (i !== j)` expansion that the words store runs when it
 * exports, persists and lists items, the `split('_')[0]` grouping that
 * restores rows, and the two on-demand projections of `csv.ts`.
 */
module WordPairs {
  import opened Wrappers
  import opened Seqs
  import opened Strings
  import opened OrderedMap
  import opened Types

  // ---------------------------------------------------------------------
  // The index pairs visited by `for (i < n) for (j < n) if (i !== j)`
  // ---------------------------------------------------------------------

  /** Lexicographic order on index pairs. */
  predicate Before(a: (nat, nat), b: (nat, nat)) {
    a.0 < b.0 || (a.0 == b.0 && a.1 < b.1)
  }

  ghost predicate LexSorted(ps: seq<(nat, nat)>) {
    forall k1, k2 :: 0 <= k1 < k2 < |ps| ==> Before(ps[k1], ps[k2])
  }

  predicate Has(ps: seq<(nat, nat)>, a: nat, b: nat) {
    (a, b) in ps
  }

  /** `(a, b)` is one of the pairs the loops visit for `n` keys. */
  predicate OffDiagonal(n: nat, p: (nat, nat)) {
    p.0 < n && p.1 < n && p.0 != p.1
  }

  /** The pairs of the inner loop for source `i`, with targets below `j`. */
  function Targets(i: nat, j: nat): (r: seq<(nat, nat)>)
    ensures |r| == if i < j then j - 1 else j
    ensures forall k :: 0 <= k < |r| ==> r[k].0 == i && r[k].1 < j && r[k].1 != i
  {
    if j == 0 then []
    else Targets(i, j - 1) + (if j - 1 != i then [(i, j - 1)] else [])
  }

  /** The pairs of the outer loop's first `i` iterations over `n` keys. */
  function Sources(n: nat, i: nat): (r: seq<(nat, nat)>)
    requires i <= n
    ensures forall k :: 0 <= k < |r| ==> r[k].0 < i && OffDiagonal(n, r[k])
  {
    if i == 0 then [] else Sources(n, i - 1) + Targets(i - 1, n)
  }

  lemma {:induction false} SourcesCount(n: nat, i: nat)
    requires i <= n
    ensures |Sources(n, i)| == i * (n - 1)
  {
    if i > 0 {
      SourcesCount(n, i - 1);
      assert (i - 1) * (n - 1) + (n - 1) == i * (n - 1);
    }
  }

  lemma {:induction false} TargetsSortedAndComplete(i: nat, j: nat)
    ensures LexSorted(Targets(i, j))
    ensures forall b :: 0 <= b < j && b != i ==> Has(Targets(i, j), i, b)
  {
    if j > 0 {
      TargetsSortedAndComplete(i, j - 1);
      var r := Targets(i, j);
      forall b | 0 <= b < j && b != i ensures Has(r, i, b) {
        if b < j - 1 { assert Has(Targets(i, j - 1), i, b); } else { assert r[|r| - 1] == (i, b); }
      }
    }
  }

  lemma {:induction false} SourcesSortedAndComplete(n: nat, i: nat)
    requires i <= n
    ensures LexSorted(Sources(n, i))
    ensures forall a, b :: 0 <= a < i && 0 <= b < n && a != b ==> Has(Sources(n, i), a, b)
  {
    if i > 0 {
      SourcesSortedAndComplete(n, i - 1);
      TargetsSortedAndComplete(i - 1, n);
      var prev, last := Sources(n, i - 1), Targets(i - 1, n);
      var r := prev + last;
      assert r == Sources(n, i);
      forall k1, k2 | 0 <= k1 < k2 < |r| ensures Before(r[k1], r[k2]) {
        if k2 < |prev| {
          assert r[k1] == prev[k1] && r[k2] == prev[k2];
        } else if k1 >= |prev| {
          assert r[k1] == last[k1 - |prev|] && r[k2] == last[k2 - |prev|];
        } else {
          assert r[k1] == prev[k1] && r[k2] == last[k2 - |prev|];
        }
      }
      forall a, b | 0 <= a < i && 0 <= b < n && a != b ensures Has(r, a, b) {
        if a < i - 1 { assert Has(prev, a, b); } else { assert Has(last, a, b); }
      }
    }
  }

  /** The first source's pairs open the pairs of every later prefix. */
  lemma {:induction false} SourcesHead(n: nat, i: nat)
    requires 1 <= i <= n
    ensures n - 1 <= |Sources(n, i)| && Sources(n, i)[..n - 1] == Targets(0, n)
  {
    if i == 1 {
      assert Sources(n, 0) == [];
      assert Sources(n, 1) == Targets(0, n);
    } else {
      SourcesHead(n, i - 1);
      var prev := Sources(n, i - 1);
      assert Sources(n, i) == prev + Targets(i - 1, n);
      assert (prev + Targets(i - 1, n))[..n - 1] == prev[..n - 1];
    }
  }

  /** Every ordered pair of distinct indices below `n`, in loop order. */
  function IndexPairs(n: nat): (r: seq<(nat, nat)>)
    ensures forall k :: 0 <= k < |r| ==> OffDiagonal(n, r[k])
  {
    Sources(n, n)
  }

  /** The loops visit each ordered pair of distinct indices exactly once, lexicographically. */
  lemma IndexPairsSortedAndComplete(n: nat)
    ensures |IndexPairs(n)| == n * (n - 1)
    ensures LexSorted(IndexPairs(n))
    ensures forall a, b :: 0 <= a < n && 0 <= b < n && a != b ==> Has(IndexPairs(n), a, b)
  {
    SourcesCount(n, n);
    SourcesSortedAndComplete(n, n);
  }

  // ---------------------------------------------------------------------
  // Expansion of rows into items
  // ---------------------------------------------------------------------

  /** The composite item id `${rowId}_${src}_${tgt}`. */
  function PairId(rowId: string, src: string, tgt: string): string {
    rowId + "_" + src + "_" + tgt
  }

  /**
   * The item for the `i`-th and `j`-th keys of `row.words`. The source reads
   * the texts back as `row.words[lang]`, which is the `i`-th value because an
   * object lists each key once (`GetAt`). Persisting leaves `stars` out.
   */
  function PairItem(row: WordRow, i: nat, j: nat, keepStars: bool): WordItem
    requires i < |row.words| && j < |row.words|
  {
    var (src, textSrc) := row.words[i];
    var (tgt, textTgt) := row.words[j];
    WordItem(PairId(row.id, src, tgt), src, tgt, textSrc, textTgt,
             row.times, row.errors, row.lastReview, row.spellErrors, row.notes,
             if keepStars then row.stars else None)
  }

  ghost predicate InRange(row: WordRow, ps: seq<(nat, nat)>) {
    forall k :: 0 <= k < |ps| ==> ps[k].0 < |row.words| && ps[k].1 < |row.words|
  }

  /** The items for the index pairs `ps`, in order. */
  function ItemsAt(row: WordRow, ps: seq<(nat, nat)>, keepStars: bool): (r: seq<WordItem>)
    requires InRange(row, ps)
  {
    seq(|ps|, k requires 0 <= k < |ps| => PairItem(row, ps[k].0, ps[k].1, keepStars))
  }

  lemma ItemsAtAppend(row: WordRow, a: seq<(nat, nat)>, b: seq<(nat, nat)>, keepStars: bool)
    requires InRange(row, a) && InRange(row, b)
    ensures InRange(row, a + b)
    ensures ItemsAt(row, a + b, keepStars) == ItemsAt(row, a, keepStars) + ItemsAt(row, b, keepStars)
  {
  }

  /** `(it)` is the item of some pair of distinct keys of `row`. */
  ghost predicate IsPairOf(row: WordRow, it: WordItem, keepStars: bool) {
    exists i, j :: 0 <= i < |row.words| && 0 <= j < |row.words| && i != j &&
      it == PairItem(row, i, j, keepStars)
  }

  /** The items of the inner loop for source `i`, with targets below `j`. */
  function RowTargets(row: WordRow, i: nat, j: nat, keepStars: bool): seq<WordItem>
    requires i < |row.words| && j <= |row.words|
  {
    if j == 0 then []
    else RowTargets(row, i, j - 1, keepStars) + (if j - 1 != i then [PairItem(row, i, j - 1, keepStars)] else [])
  }

  /** The items of the outer loop's first `i` iterations. */
  function RowSources(row: WordRow, i: nat, keepStars: bool): seq<WordItem>
    requires i <= |row.words|
  {
    if i == 0 then []
    else RowSources(row, i - 1, keepStars) + RowTargets(row, i - 1, |row.words|, keepStars)
  }

  /** One row's items. */
  function RowPairs(row: WordRow, keepStars: bool): seq<WordItem> {
    RowSources(row, |row.words|, keepStars)
  }

  lemma {:induction false} RowTargetsAre(row: WordRow, i: nat, j: nat, keepStars: bool)
    requires i < |row.words| && j <= |row.words|
    ensures InRange(row, Targets(i, j))
    ensures RowTargets(row, i, j, keepStars) == ItemsAt(row, Targets(i, j), keepStars)
  {
    if j == 0 {
      assert ItemsAt(row, [], keepStars) == [];
    } else {
      RowTargetsAre(row, i, j - 1, keepStars);
      RowTargetsStep(row, i, j, keepStars);
    }
  }

  /** One more iteration of the inner loop adds the item of `(i, j - 1)` unless `j - 1` is `i`. */
  lemma RowTargetsStep(row: WordRow, i: nat, j: nat, keepStars: bool)
    requires i < |row.words| && 0 < j <= |row.words|
    requires InRange(row, Targets(i, j - 1))
    requires RowTargets(row, i, j - 1, keepStars) == ItemsAt(row, Targets(i, j - 1), keepStars)
    ensures InRange(row, Targets(i, j))
    ensures RowTargets(row, i, j, keepStars) == ItemsAt(row, Targets(i, j), keepStars)
  {
    if j - 1 == i {
      assert Targets(i, j) == Targets(i, j - 1) + [];
      assert RowTargets(row, i, j, keepStars) == RowTargets(row, i, j - 1, keepStars) + [];
    } else {
      RowTargetsAdd(row, i, j - 1, keepStars);
    }
  }

  /** The inner loop's iteration for a key other than `i` appends that pair's item. */
  lemma RowTargetsAdd(row: WordRow, i: nat, j: nat, keepStars: bool)
    requires i < |row.words| && j < |row.words| && j != i
    requires InRange(row, Targets(i, j))
    requires RowTargets(row, i, j, keepStars) == ItemsAt(row, Targets(i, j), keepStars)
    ensures InRange(row, Targets(i, j + 1))
    ensures RowTargets(row, i, j + 1, keepStars) == ItemsAt(row, Targets(i, j + 1), keepStars)
  {
    var before := Targets(i, j);
    assert Targets(i, j + 1) == before + [(i, j)];
    assert RowTargets(row, i, j + 1, keepStars) == RowTargets(row, i, j, keepStars) + [PairItem(row, i, j, keepStars)];
    ItemsAtSingle(row, i, j, keepStars);
    ItemsAtAppend(row, before, [(i, j)], keepStars);
  }

  lemma ItemsAtSingle(row: WordRow, i: nat, j: nat, keepStars: bool)
    requires i < |row.words| && j < |row.words|
    ensures InRange(row, [(i, j)])
    ensures ItemsAt(row, [(i, j)], keepStars) == [PairItem(row, i, j, keepStars)]
  {
  }

  lemma {:induction false} RowSourcesAre(row: WordRow, i: nat, keepStars: bool)
    requires i <= |row.words|
    ensures InRange(row, Sources(|row.words|, i))
    ensures RowSources(row, i, keepStars) == ItemsAt(row, Sources(|row.words|, i), keepStars)
  {
    if i > 0 {
      RowSourcesAre(row, i - 1, keepStars);
      RowTargetsAre(row, i - 1, |row.words|, keepStars);
      ItemsAtAppend(row, Sources(|row.words|, i - 1), Targets(i - 1, |row.words|), keepStars);
    }
  }

  /** A row's items are the items of the index pairs, N*(N-1) of them for N keys. */
  lemma RowPairsAre(row: WordRow, keepStars: bool)
    ensures RowPairs(row, keepStars) == ItemsAt(row, IndexPairs(|row.words|), keepStars)
    ensures |RowPairs(row, keepStars)| == |row.words| * (|row.words| - 1)
  {
    RowSourcesAre(row, |row.words|, keepStars);
    IndexPairsSortedAndComplete(|row.words|);
  }

  /** A row's items: those of its first key as source, then the rest. */
  lemma RowPairsSplit(row: WordRow, keepStars: bool)
    requires 0 < |row.words|
    ensures var n := |row.words|;
      n - 1 <= |Sources(n, n)| && InRange(row, Sources(n, n)[n - 1..]) &&
      RowPairs(row, keepStars) == RowTargets(row, 0, n, keepStars) + ItemsAt(row, Sources(n, n)[n - 1..], keepStars)
  {
    var n := |row.words|;
    var ps := Sources(n, n);
    RowSourcesAre(row, n, keepStars);
    SourcesHead(n, n);
    RowTargetsAre(row, 0, n, keepStars);
    assert ps == ps[..n - 1] + ps[n - 1..];
    ItemsAtAppend(row, ps[..n - 1], ps[n - 1..], keepStars);
  }

  /** A row's items are exactly the items of its pairs of distinct keys. */
  lemma RowPairsCover(row: WordRow, keepStars: bool)
    ensures var r := RowPairs(row, keepStars);
      forall k :: 0 <= k < |r| ==> IsPairOf(row, r[k], keepStars)
    ensures forall i, j :: 0 <= i < |row.words| && 0 <= j < |row.words| && i != j ==>
      PairItem(row, i, j, keepStars) in RowPairs(row, keepStars)
  {
    var ps := IndexPairs(|row.words|);
    var r := RowPairs(row, keepStars);
    RowPairsAre(row, keepStars);
    IndexPairsSortedAndComplete(|row.words|);
    forall k | 0 <= k < |r| ensures IsPairOf(row, r[k], keepStars) {
      assert OffDiagonal(|row.words|, ps[k]);
      assert r[k] == PairItem(row, ps[k].0, ps[k].1, keepStars);
    }
    forall i, j | 0 <= i < |row.words| && 0 <= j < |row.words| && i != j
      ensures PairItem(row, i, j, keepStars) in r
    {
      assert Has(ps, i, j);
      var k :| 0 <= k < |ps| && ps[k] == (i, j);
      assert r[k] == PairItem(row, i, j, keepStars);
    }
  }

  /** All rows' items, the rows' groups concatenated in row order. */
  function AllPairs(rows: seq<WordRow>, keepStars: bool): (r: seq<WordItem>)
  {
    if rows == [] then []
    else AllPairs(rows[..|rows| - 1], keepStars) + RowPairs(rows[|rows| - 1], keepStars)
  }

  /** The number of items the expansion yields: the sum of N*(N-1) over the rows. */
  function PairCount(rows: seq<WordRow>): nat {
    if rows == [] then 0
    else
      var n := |rows[|rows| - 1].words|;
      PairCount(rows[..|rows| - 1]) + n * (n - 1)
  }

  /**
   * In a well-formed row the items have distinct source and target, no two
   * items share a (source, target) pair, and each text is what
   * `row.words[lang]` returns.
   */
  lemma RowPairsDistinct(row: WordRow, keepStars: bool)
    requires WellFormedRow(row)
    ensures var r := RowPairs(row, keepStars);
      forall k :: 0 <= k < |r| ==>
        && r[k].langSrc != r[k].langTgt
        && Get(row.words, r[k].langSrc) == Some(r[k].textSrc)
        && Get(row.words, r[k].langTgt) == Some(r[k].textTgt)
    ensures var r := RowPairs(row, keepStars);
      forall k1, k2 :: 0 <= k1 < k2 < |r| ==>
        (r[k1].langSrc, r[k1].langTgt) != (r[k2].langSrc, r[k2].langTgt)
  {
    var ps := IndexPairs(|row.words|);
    var r := RowPairs(row, keepStars);
    RowPairsAre(row, keepStars);
    IndexPairsSortedAndComplete(|row.words|);
    forall k | 0 <= k < |r|
      ensures r[k].langSrc != r[k].langTgt
      ensures Get(row.words, r[k].langSrc) == Some(r[k].textSrc)
      ensures Get(row.words, r[k].langTgt) == Some(r[k].textTgt)
    {
      GetAt(row.words, ps[k].0);
      GetAt(row.words, ps[k].1);
    }
    forall k1, k2 | 0 <= k1 < k2 < |r|
      ensures (r[k1].langSrc, r[k1].langTgt) != (r[k2].langSrc, r[k2].langTgt)
    {
      assert Before(ps[k1], ps[k2]);
    }
  }

  /** `id.split('_')[0]`. */
  function BaseId(id: string): (r: string)
    ensures '_' !in r && r <= id
  {
    BeforeFirst(id, '_')
  }

  /** A row id without `_` is recovered from every composite id built on it. */
  lemma BaseIdOfPairId(rowId: string, src: string, tgt: string)
    requires '_' !in rowId
    ensures BaseId(PairId(rowId, src, tgt)) == rowId
  {
    assert PairId(rowId, src, tgt) == rowId + ['_'] + (src + "_" + tgt);
    BeforeFirstOfJoined(rowId, '_', src + "_" + tgt);
  }

  lemma RowPairsBaseId(row: WordRow, keepStars: bool)
    requires '_' !in row.id
    ensures forall it :: it in RowPairs(row, keepStars) ==> BaseId(it.id) == row.id
  {
    forall it | it in RowPairs(row, keepStars) ensures BaseId(it.id) == row.id {
      RowPairsCover(row, keepStars);
      BaseIdOfPairId(row.id, it.langSrc, it.langTgt);
    }
  }

  /** A row with fewer than two languages yields no item. */
  lemma RowPairsOfSmallRow(row: WordRow, keepStars: bool)
    requires |row.words| < 2
    ensures RowPairs(row, keepStars) == []
  {
    RowPairsAre(row, keepStars);
    assert |row.words| * (|row.words| - 1) == 0;
  }

  /** Expansion distributes over concatenation of row lists. */
  lemma AllPairsSnoc(rows: seq<WordRow>, row: WordRow, keepStars: bool)
    ensures AllPairs(rows + [row], keepStars) == AllPairs(rows, keepStars) + RowPairs(row, keepStars)
  {
    assert (rows + [row])[..|rows|] == rows;
  }

  /** Expansion distributes over concatenation of row lists. */
  lemma {:induction false} AllPairsAppend(a: seq<WordRow>, b: seq<WordRow>, keepStars: bool)
    ensures AllPairs(a + b, keepStars) == AllPairs(a, keepStars) + AllPairs(b, keepStars)
    decreases |b|
  {
    if b == [] {
      assert a + b == a;
    } else {
      var b', last := b[..|b| - 1], b[|b| - 1];
      assert b == b' + [last];
      assert a + b == (a + b') + [last];
      AllPairsSnoc(a + b', last, keepStars);
      AllPairsSnoc(b', last, keepStars);
      AllPairsAppend(a, b', keepStars);
    }
  }

  /**
   * The expansion loop of `exportCsv`, `persist` and `getAllItems`
   * (`keepStars` is false for `persist`, which leaves `stars` out).
   */
  method ExpandRows(rows: seq<WordRow>, keepStars: bool) returns (items: seq<WordItem>)
    ensures items == AllPairs(rows, keepStars)
  {
    items := [];
    var r := 0;
    while r < |rows|
      invariant 0 <= r <= |rows|
      invariant items == AllPairs(rows[..r], keepStars)
    {
      var rowItems := ExpandRow(rows[r], keepStars);
      assert rows[..r + 1] == rows[..r] + [rows[r]];
      AllPairsSnoc(rows[..r], rows[r], keepStars);
      items := items + rowItems;
      r := r + 1;
    }
    assert rows[..|rows|] == rows;
  }

  /** The body of the expansion loop for one row: `for i`, `for j`, `if (i !== j)`. */
  method ExpandRow(row: WordRow, keepStars: bool) returns (items: seq<WordItem>)
    ensures items == RowPairs(row, keepStars)
  {
    var languages := Keys(row.words);
    var n := |languages|;
    items := [];
    var i := 0;
    while i < n
      invariant 0 <= i <= n
      invariant items == RowSources(row, i, keepStars)
    {
      ghost var before := items;
      var j := 0;
      while j < n
        invariant 0 <= j <= n
        invariant items == before + RowTargets(row, i, j, keepStars)
      {
        if i != j {
          items := items + [PairItem(row, i, j, keepStars)];
        }
        j := j + 1;
      }
      i := i + 1;
    }
  }

  // ---------------------------------------------------------------------
  // Restore: grouping items back into rows by `id.split('_')[0]`
  // ---------------------------------------------------------------------

  /** `row.words[lang_src] = text_src; row.words[lang_tgt] = text_tgt`. */
  function Observe(words: Words, it: WordItem): (r: Words)
    ensures Get(r, it.langTgt) == Some(it.textTgt)
    ensures it.langSrc != it.langTgt ==> Get(r, it.langSrc) == Some(it.textSrc)
    ensures forall l :: l != it.langSrc && l != it.langTgt ==> Get(r, l) == Get(words, l)
    ensures UniqueKeys(words) ==> UniqueKeys(r)
  {
    Put(Put(words, it.langSrc, it.textSrc), it.langTgt, it.textTgt)
  }

  /** The row `restore` opens for the first item of a group: the item's stats, no words yet. */
  function StartRow(it: WordItem): WordRow {
    WordRow(BaseId(it.id), [], it.times, it.errors, it.lastReview, it.spellErrors, it.notes, it.stars, map[])
  }

  /**
   * One iteration of `restore`'s loop. `acc` is the `Map`'s values in
   * insertion order; each row's id is its key, so `rowMap.has(baseId)` is a
   * search by id.
   */
  function Absorb(acc: seq<WordRow>, it: WordItem): seq<WordRow> {
    var b := BaseId(it.id);
    match RowIndex(acc, b)
    case Some(k) => acc[k := acc[k].(words := Observe(acc[k].words, it))]
    case None => acc + [StartRow(it).(words := Observe([], it))]
  }

  /** The rows built from `acc` by absorbing `items` in order. */
  function CollapseOnto(acc: seq<WordRow>, items: seq<WordItem>): seq<WordRow> {
    if items == [] then acc
    else Absorb(CollapseOnto(acc, items[..|items| - 1]), items[|items| - 1])
  }

  /** `restore`: the rows rebuilt from the saved items. */
  function Collapse(items: seq<WordItem>): seq<WordRow> {
    CollapseOnto([], items)
  }

  /** Absorbing an item keeps every row's languages listed once. */
  lemma AbsorbWellFormed(acc: seq<WordRow>, it: WordItem)
    requires forall k :: 0 <= k < |acc| ==> WellFormedRow(acc[k])
    ensures forall k :: 0 <= k < |Absorb(acc, it)| ==> WellFormedRow(Absorb(acc, it)[k])
  {
    var none: Words := [];
    assert UniqueKeys(none);
  }

  /** The rows `restore` rebuilds list each of their languages once. */
  lemma {:induction false} CollapseOntoWellFormed(acc: seq<WordRow>, items: seq<WordItem>)
    requires forall k :: 0 <= k < |acc| ==> WellFormedRow(acc[k])
    ensures forall k :: 0 <= k < |CollapseOnto(acc, items)| ==> WellFormedRow(CollapseOnto(acc, items)[k])
  {
    if items != [] {
      var init := items[..|items| - 1];
      CollapseOntoWellFormed(acc, init);
      AbsorbWellFormed(CollapseOnto(acc, init), items[|items| - 1]);
    }
  }

  lemma CollapseWellFormed(items: seq<WordItem>)
    ensures forall k :: 0 <= k < |Collapse(items)| ==> WellFormedRow(Collapse(items)[k])
  {
    CollapseOntoWellFormed([], items);
  }

  lemma CollapseOntoSnoc(acc: seq<WordRow>, items: seq<WordItem>, it: WordItem)
    ensures CollapseOnto(acc, items + [it]) == Absorb(CollapseOnto(acc, items), it)
  {
    assert (items + [it])[..|items|] == items;
  }

  lemma {:induction false} CollapseOntoAppend(acc: seq<WordRow>, a: seq<WordItem>, b: seq<WordItem>)
    ensures CollapseOnto(acc, a + b) == CollapseOnto(CollapseOnto(acc, a), b)
    decreases |b|
  {
    if b == [] {
      assert a + b == a;
    } else {
      var b', last := b[..|b| - 1], b[|b| - 1];
      assert b == b' + [last];
      assert a + b == (a + b') + [last];
      CollapseOntoSnoc(acc, a + b', last);
      CollapseOntoSnoc(CollapseOnto(acc, a), b', last);
      CollapseOntoAppend(acc, a, b');
    }
  }

  /** What restoring the expansion gives back for one row: `progress` is empty, `stars` kept only if persisted. */
  function Restored(row: WordRow, keepStars: bool): WordRow {
    row.(stars := if keepStars then row.stars else None, progress := map[])
  }

  function RestoredRows(rows: seq<WordRow>, keepStars: bool): (r: seq<WordRow>)
    ensures |r| == |rows|
  {
    seq(|rows|, k requires 0 <= k < |rows| => Restored(rows[k], keepStars))
  }

  /** The conditions under which a row survives the persist/restore round trip. */
  ghost predicate RoundTrips(row: WordRow) {
    WellFormedRow(row) && |row.words| >= 2 && '_' !in row.id
  }

  /** The restored row, while its first source's items are absorbed: its first `j` keys. */
  function Partial(row: WordRow, keepStars: bool, j: nat): WordRow
    requires j <= |row.words|
  {
    Restored(row, keepStars).(words := row.words[..j])
  }

  /** Absorbing an item of a row whose words are already complete changes nothing. */
  lemma AbsorbComplete(acc: seq<WordRow>, row: WordRow, keepStars: bool, i: nat, j: nat)
    requires RoundTrips(row) && RowIndex(acc, row.id).None?
    requires i < |row.words| && j < |row.words|
    ensures Absorb(acc + [Restored(row, keepStars)], PairItem(row, i, j, keepStars)) == acc + [Restored(row, keepStars)]
  {
    var it := PairItem(row, i, j, keepStars);
    var s := acc + [Restored(row, keepStars)];
    BaseIdOfPairId(row.id, it.langSrc, it.langTgt);
    RowIndexIs(s, |acc|);
    GetAt(row.words, i);
    PutSame(row.words, it.langSrc, it.textSrc);
    GetAt(row.words, j);
    PutSame(row.words, it.langTgt, it.textTgt);
    assert s[|acc|].(words := Observe(s[|acc|].words, it)) == s[|acc|];
  }

  /** A row appended last, whose id no earlier row has, is found at its position. */
  lemma RowIndexIs(rows: seq<WordRow>, k: nat)
    requires k < |rows| && forall k' :: 0 <= k' < k ==> rows[k'].id != rows[k].id
    ensures RowIndex(rows, rows[k].id) == Some(k)
  {
  }

  lemma {:induction false} CollapseComplete(acc: seq<WordRow>, row: WordRow, keepStars: bool, ps: seq<(nat, nat)>)
    requires RoundTrips(row) && RowIndex(acc, row.id).None? && InRange(row, ps)
    ensures CollapseOnto(acc + [Restored(row, keepStars)], ItemsAt(row, ps, keepStars)) == acc + [Restored(row, keepStars)]
    decreases |ps|
  {
    if ps != [] {
      var ps', p := ps[..|ps| - 1], ps[|ps| - 1];
      assert ItemsAt(row, ps, keepStars) == ItemsAt(row, ps', keepStars) + [PairItem(row, p.0, p.1, keepStars)];
      CollapseOntoSnoc(acc + [Restored(row, keepStars)], ItemsAt(row, ps', keepStars), PairItem(row, p.0, p.1, keepStars));
      CollapseComplete(acc, row, keepStars, ps');
      AbsorbComplete(acc, row, keepStars, p.0, p.1);
    }
  }

  /** The first item of a new row opens it with its first two keys. */
  lemma AbsorbFirst(acc: seq<WordRow>, row: WordRow, keepStars: bool)
    requires RoundTrips(row) && RowIndex(acc, row.id).None?
    ensures Absorb(acc, PairItem(row, 0, 1, keepStars)) == acc + [Partial(row, keepStars, 2)]
  {
    var w := row.words;
    var it := PairItem(row, 0, 1, keepStars);
    BaseIdOfPairId(row.id, it.langSrc, it.langTgt);
    assert Observe([], it) == w[..2] by {
      assert it.langSrc == w[0].0 && it.textSrc == w[0].1 && it.langTgt == w[1].0 && it.textTgt == w[1].1;
      assert w[..0] == [];
      PutNext(w, 0);
      PutNext(w, 1);
    }
    assert StartRow(it).(words := w[..2]) == Partial(row, keepStars, 2);
  }

  /** A later item of the first source adds the next key of the row. */
  lemma AbsorbNextKey(acc: seq<WordRow>, row: WordRow, keepStars: bool, j: nat)
    requires RoundTrips(row) && RowIndex(acc, row.id).None?
    requires 2 <= j < |row.words|
    ensures Absorb(acc + [Partial(row, keepStars, j)], PairItem(row, 0, j, keepStars))
         == acc + [Partial(row, keepStars, j + 1)]
  {
    var w := row.words;
    var it := PairItem(row, 0, j, keepStars);
    var s := acc + [Partial(row, keepStars, j)];
    BaseIdOfPairId(row.id, it.langSrc, it.langTgt);
    RowIndexIs(s, |acc|);
    ObserveNextKey(row, keepStars, j);
    assert Partial(row, keepStars, j).(words := w[..j + 1]) == Partial(row, keepStars, j + 1);
    UpdateLast(acc, Partial(row, keepStars, j), Partial(row, keepStars, j + 1));
  }

  /** The item of keys 0 and `j` re-sets key 0 and adds key `j` to the first `j` keys. */
  lemma ObserveNextKey(row: WordRow, keepStars: bool, j: nat)
    requires RoundTrips(row) && 2 <= j < |row.words|
    ensures Observe(row.words[..j], PairItem(row, 0, j, keepStars)) == row.words[..j + 1]
  {
    var w := row.words;
    var it := PairItem(row, 0, j, keepStars);
    assert it.langSrc == w[0].0 && it.textSrc == w[0].1 && it.langTgt == w[j].0 && it.textTgt == w[j].1;
    assert UniqueKeys(w[..j]);
    GetAt(w[..j], 0);
    PutSame(w[..j], it.langSrc, it.textSrc);
    PutNext(w, j);
  }

  lemma NoSelfTarget(row: WordRow, keepStars: bool)
    requires 0 < |row.words|
    ensures RowTargets(row, 0, 1, keepStars) == []
  {
    assert RowTargets(row, 0, 0, keepStars) == [];
  }

  /** The items of the first source key build the row up key by key. */
  lemma {:induction false} CollapseFirstSource(acc: seq<WordRow>, row: WordRow, keepStars: bool, j: nat)
    requires RoundTrips(row) && RowIndex(acc, row.id).None?
    requires 2 <= j <= |row.words|
    ensures CollapseOnto(acc, RowTargets(row, 0, j, keepStars)) == acc + [Partial(row, keepStars, j)]
  {
    var it := PairItem(row, 0, j - 1, keepStars);
    var prev := RowTargets(row, 0, j - 1, keepStars);
    assert RowTargets(row, 0, j, keepStars) == prev + [it];
    CollapseOntoSnoc(acc, prev, it);
    if j == 2 {
      NoSelfTarget(row, keepStars);
      AbsorbFirst(acc, row, keepStars);
    } else {
      CollapseFirstSource(acc, row, keepStars, j - 1);
      AbsorbNextKey(acc, row, keepStars, j - 1);
    }
  }

  lemma FirstSourceIsWhole(row: WordRow, keepStars: bool)
    requires 0 < |row.words|
    ensures RowSources(row, 1, keepStars) == RowTargets(row, 0, |row.words|, keepStars)
    ensures Partial(row, keepStars, |row.words|) == Restored(row, keepStars)
  {
    assert RowSources(row, 0, keepStars) == [];
    assert row.words[..|row.words|] == row.words;
  }

  /** Restoring one row's expansion appends that row, as far as persisted. */
  lemma CollapseRowPairs(acc: seq<WordRow>, row: WordRow, keepStars: bool)
    requires RoundTrips(row) && RowIndex(acc, row.id).None?
    ensures CollapseOnto(acc, RowPairs(row, keepStars)) == acc + [Restored(row, keepStars)]
  {
    var n := |row.words|;
    RowPairsSplit(row, keepStars);
    var rest := Sources(n, n)[n - 1..];
    CollapseOntoAppend(acc, RowTargets(row, 0, n, keepStars), ItemsAt(row, rest, keepStars));
    FirstSourceIsWhole(row, keepStars);
    CollapseFirstSource(acc, row, keepStars, n);
    CollapseComplete(acc, row, keepStars, rest);
  }

  /** No restored row carries an id that a later row has. */
  lemma NotYetRestored(rows: seq<WordRow>, keepStars: bool)
    requires rows != []
    requires forall k1, k2 :: 0 <= k1 < k2 < |rows| ==> rows[k1].id != rows[k2].id
    ensures RowIndex(RestoredRows(rows[..|rows| - 1], keepStars), rows[|rows| - 1].id).None?
  {
    var acc := RestoredRows(rows[..|rows| - 1], keepStars);
    assert forall k :: 0 <= k < |acc| ==> acc[k].id == rows[k].id;
  }

  /**
   * Round trip: restoring the expansion of rows with distinct `_`-free ids
   * and at least two languages each gives back the rows, with `progress`
   * emptied and `stars` dropped when persisting left it out.
   */
  lemma {:induction false} RestoreAfterExpand(rows: seq<WordRow>, keepStars: bool)
    requires forall k :: 0 <= k < |rows| ==> RoundTrips(rows[k])
    requires forall k1, k2 :: 0 <= k1 < k2 < |rows| ==> rows[k1].id != rows[k2].id
    ensures Collapse(AllPairs(rows, keepStars)) == RestoredRows(rows, keepStars)
  {
    if rows != [] {
      var init, last := rows[..|rows| - 1], rows[|rows| - 1];
      assert rows == init + [last];
      var before, after := AllPairs(init, keepStars), RowPairs(last, keepStars);
      RestoreAfterExpand(init, keepStars);
      NotYetRestored(rows, keepStars);
      calc {
        Collapse(AllPairs(rows, keepStars));
        { AllPairsSnoc(init, last, keepStars); }
        CollapseOnto([], before + after);
        { CollapseOntoAppend([], before, after); }
        CollapseOnto(RestoredRows(init, keepStars), after);
        { CollapseRowPairs(RestoredRows(init, keepStars), last, keepStars); }
        RestoredRows(init, keepStars) + [Restored(last, keepStars)];
        { RestoredRowsSnoc(init, last, keepStars); }
        RestoredRows(rows, keepStars);
      }
    }
  }

  lemma RestoredRowsSnoc(rows: seq<WordRow>, row: WordRow, keepStars: bool)
    ensures RestoredRows(rows + [row], keepStars) == RestoredRows(rows, keepStars) + [Restored(row, keepStars)]
  {
  }

  /**
   * `restore`'s loop over the saved items: a row per base id, opened by the
   * group's first item and completed by every item's two texts.
   */
  method CollapseItems(saved: seq<WordItem>) returns (rows: seq<WordRow>)
    ensures rows == Collapse(saved)
  {
    rows := [];
    for k := 0 to |saved|
      invariant rows == CollapseOnto([], saved[..k])
    {
      rows := AbsorbItem(rows, saved[k]);
      CollapsePrefix(saved, k);
    }
    assert saved[..|saved|] == saved;
  }

  /** One pass of `restore`'s loop body: find or open the row of the item's base id, then set both texts. */
  method AbsorbItem(rows: seq<WordRow>, it: WordItem) returns (rows': seq<WordRow>)
    ensures rows' == Absorb(rows, it)
  {
    var baseId := BaseId(it.id);
    var found := RowIndex(rows, baseId);
    var index: nat;
    rows' := rows;
    if found.None? {
      rows' := rows' + [StartRow(it)];
      index := |rows'| - 1;
    } else {
      index := found.value;
    }
    AbsorbAt(rows, it, rows', index);
    var words := Put(rows'[index].words, it.langSrc, it.textSrc);
    words := Put(words, it.langTgt, it.textTgt);
    rows' := rows'[index := rows'[index].(words := words)];
  }

  /** Setting both texts on the row found, or on the row just opened, is one `Absorb`. */
  lemma AbsorbAt(rows: seq<WordRow>, it: WordItem, grown: seq<WordRow>, index: nat)
    requires RowIndex(rows, BaseId(it.id)).None? ==> grown == rows + [StartRow(it)] && index == |rows|
    requires RowIndex(rows, BaseId(it.id)).Some? ==> grown == rows && index == RowIndex(rows, BaseId(it.id)).value
    ensures index < |grown|
    ensures grown[index := grown[index].(words := Observe(grown[index].words, it))] == Absorb(rows, it)
  {
    if RowIndex(rows, BaseId(it.id)).None? {
      UpdateLast(rows, StartRow(it), StartRow(it).(words := Observe([], it)));
    }
  }

  lemma CollapsePrefix(items: seq<WordItem>, k: nat)
    requires k < |items|
    ensures CollapseOnto([], items[..k + 1]) == Absorb(CollapseOnto([], items[..k]), items[k])
  {
    assert items[..k + 1][..k] == items[..k];
  }

  /** The base ids of the items, in order. */
  function BaseIds(items: seq<WordItem>): (r: seq<string>)
    ensures |r| == |items| && forall k :: 0 <= k < |items| ==> r[k] == BaseId(items[k].id)
  {
    seq(|items|, k requires 0 <= k < |items| => BaseId(items[k].id))
  }

  /** Absorbing `it` opens a row for its base id unless one is there. */
  lemma AbsorbIds(acc: seq<WordRow>, it: WordItem)
    ensures RowIds(Absorb(acc, it)) == AddNew(RowIds(acc), BaseId(it.id))
  {
    var b := BaseId(it.id);
    var r := Absorb(acc, it);
    match RowIndex(acc, b)
    case Some(k) =>
      assert RowIds(r) == RowIds(acc);
    case None =>
      assert b !in RowIds(acc);
      assert RowIds(r) == RowIds(acc) + [b];
  }

  /** The rows restored onto `acc` are listed in order of first occurrence of their base ids. */
  lemma {:induction false} CollapseIds(acc: seq<WordRow>, items: seq<WordItem>)
    ensures RowIds(CollapseOnto(acc, items)) == AddAll(RowIds(acc), BaseIds(items))
  {
    if items != [] {
      var init, it := items[..|items| - 1], items[|items| - 1];
      CollapseIds(acc, init);
      AbsorbIds(CollapseOnto(acc, init), it);
      assert BaseIds(items)[..|items| - 1] == BaseIds(init);
    }
  }

  /**
   * `restore` makes one row per distinct base id among the saved items, in
   * order of first occurrence.
   */
  lemma RestoredIds(items: seq<WordItem>)
    ensures RowIds(Collapse(items)) == AddAll([], BaseIds(items))
    ensures NoDup(RowIds(Collapse(items)))
    ensures forall x :: x in RowIds(Collapse(items)) <==> x in BaseIds(items)
  {
    CollapseIds([], items);
  }

  // ---------------------------------------------------------------------
  // Restore as grouping: a reference definition
  // ---------------------------------------------------------------------

  /** The items whose base id is `b`, in order: one `restore` group. */
  function Group(items: seq<WordItem>, b: string): (r: seq<WordItem>)
    ensures |r| <= |items|
    ensures forall k :: 0 <= k < |r| ==> r[k] in items && BaseId(r[k].id) == b
  {
    if items == [] then []
    else
      var last := items[|items| - 1];
      Group(items[..|items| - 1], b) + (if BaseId(last.id) == b then [last] else [])
  }

  /** A base id that no item has has an empty group. */
  lemma {:induction false} GroupEmpty(items: seq<WordItem>, b: string)
    requires b !in BaseIds(items)
    ensures Group(items, b) == []
  {
    if items != [] {
      var init := items[..|items| - 1];
      assert BaseIds(init) == BaseIds(items)[..|items| - 1];
      GroupEmpty(init, b);
      assert BaseIds(items)[|items| - 1] == BaseId(items[|items| - 1].id);
    }
  }

  /** The words written by a group's items in order, later writes overwriting earlier ones. */
  function ObserveAll(words: Words, group: seq<WordItem>): Words {
    if group == [] then words
    else Observe(ObserveAll(words, group[..|group| - 1]), group[|group| - 1])
  }

  /** The row of a group: the stats of its first item and the texts of all of them. */
  function GroupRow(group: seq<WordItem>): WordRow
    requires group != []
  {
    StartRow(group[0]).(words := ObserveAll([], group))
  }

  /** `row` is the row of its own, non-empty group among `items`. */
  ghost predicate RowOfGroup(row: WordRow, items: seq<WordItem>) {
    Group(items, row.id) != [] && row == GroupRow(Group(items, row.id))
  }

  /** Every row is the row of its own group. */
  ghost predicate Grouped(rows: seq<WordRow>, items: seq<WordItem>) {
    forall k :: 0 <= k < |rows| ==> RowOfGroup(rows[k], items)
  }

  lemma GroupedOther(row: WordRow, items: seq<WordItem>, it: WordItem)
    requires RowOfGroup(row, items) && row.id != BaseId(it.id)
    ensures RowOfGroup(row, items + [it])
  {
    GroupSnoc(items, it, row.id);
    assert Group(items, row.id) + [] == Group(items, row.id);
    assert Group(items + [it], row.id) == Group(items, row.id);
  }

  lemma GroupSnoc(items: seq<WordItem>, it: WordItem, b: string)
    ensures Group(items + [it], b) == Group(items, b) + (if BaseId(it.id) == b then [it] else [])
  {
    assert (items + [it])[..|items|] == items;
  }

  lemma GroupedExtend(row: WordRow, items: seq<WordItem>, it: WordItem)
    requires RowOfGroup(row, items) && row.id == BaseId(it.id)
    ensures RowOfGroup(row.(words := Observe(row.words, it)), items + [it])
  {
    var g := Group(items, row.id);
    GroupSnoc(items, it, row.id);
    assert Group(items + [it], row.id) == g + [it];
    assert (g + [it])[..|g|] == g;
  }

  lemma GroupedNew(items: seq<WordItem>, it: WordItem)
    requires BaseId(it.id) !in BaseIds(items)
    ensures RowOfGroup(StartRow(it).(words := Observe([], it)), items + [it])
  {
    var b := BaseId(it.id);
    GroupEmpty(items, b);
    GroupSnoc(items, it, b);
    assert [] + [it] == [it];
    assert Group(items + [it], b) == [it];
    assert [it][..0] == [];
    assert ObserveAll([], [it]) == Observe([], it);
  }

  lemma AbsorbGrouped(rows: seq<WordRow>, items: seq<WordItem>, it: WordItem)
    requires Grouped(rows, items) && RowIds(rows) == AddAll([], BaseIds(items))
    ensures Grouped(Absorb(rows, it), items + [it])
  {
    assert NoDup(RowIds(rows));
    match RowIndex(rows, BaseId(it.id))
    case Some(k0) => AbsorbGroupedAt(rows, items, it, k0);
    case None => AbsorbGroupedNew(rows, items, it);
  }

  lemma AbsorbGroupedAt(rows: seq<WordRow>, items: seq<WordItem>, it: WordItem, k0: nat)
    requires Grouped(rows, items) && NoDup(RowIds(rows))
    requires k0 < |rows| && rows[k0].id == BaseId(it.id)
    ensures Grouped(rows[k0 := rows[k0].(words := Observe(rows[k0].words, it))], items + [it])
  {
    var rows' := rows[k0 := rows[k0].(words := Observe(rows[k0].words, it))];
    forall k | 0 <= k < |rows'| ensures RowOfGroup(rows'[k], items + [it]) {
      if k == k0 {
        GroupedExtend(rows[k], items, it);
      } else {
        assert RowIds(rows)[k] != RowIds(rows)[k0];
        GroupedOther(rows[k], items, it);
      }
    }
  }

  lemma AbsorbGroupedNew(rows: seq<WordRow>, items: seq<WordItem>, it: WordItem)
    requires Grouped(rows, items) && RowIds(rows) == AddAll([], BaseIds(items))
    requires forall k :: 0 <= k < |rows| ==> rows[k].id != BaseId(it.id)
    ensures Grouped(rows + [StartRow(it).(words := Observe([], it))], items + [it])
  {
    var b := BaseId(it.id);
    assert b !in RowIds(rows);
    assert b !in BaseIds(items);
    GroupedNew(items, it);
    GroupedOthers(rows, items, it);
    GroupedSnoc(rows, StartRow(it).(words := Observe([], it)), items + [it]);
  }

  lemma GroupedOthers(rows: seq<WordRow>, items: seq<WordItem>, it: WordItem)
    requires Grouped(rows, items)
    requires forall k :: 0 <= k < |rows| ==> rows[k].id != BaseId(it.id)
    ensures Grouped(rows, items + [it])
  {
    forall k | 0 <= k < |rows| ensures RowOfGroup(rows[k], items + [it]) {
      GroupedOther(rows[k], items, it);
    }
  }

  lemma GroupedSnoc(rows: seq<WordRow>, row: WordRow, items: seq<WordItem>)
    requires Grouped(rows, items) && RowOfGroup(row, items)
    ensures Grouped(rows + [row], items)
  {
    var rows' := rows + [row];
    forall k | 0 <= k < |rows'| ensures RowOfGroup(rows'[k], items) {
      if k < |rows| {
        assert rows'[k] == rows[k];
      } else {
        assert rows'[k] == row;
      }
    }
  }

  /**
   * `restore` groups the saved items by base id: each restored row takes the
   * stats of its group's first item and the texts of all the group's items,
   * later ones overwriting earlier ones, with `progress` empty.
   */
  lemma {:induction false} CollapseGrouped(items: seq<WordItem>)
    ensures Grouped(Collapse(items), items)
  {
    if items != [] {
      var init, it := items[..|items| - 1], items[|items| - 1];
      assert init + [it] == items;
      CollapseGrouped(init);
      CollapseIds([], init);
      AbsorbGrouped(Collapse(init), init, it);
    }
  }
}
