/**
 * On-demand pair generation from rows: the items of one language pair
 * (`generateLanguagePairs`) and every ordered pair of languages that occur
 * in the rows (`getAllLanguagePairs`).
 */
module LanguagePairs {
  import opened Wrappers
  import opened Seqs
  import opened OrderedMap
  import opened Types
  import opened WordPairs

  // ---------------------------------------------------------------------
  // generateLanguagePairs
  // ---------------------------------------------------------------------

  /** A JavaScript string is truthy when it is not empty. */
  predicate Truthy(t: Option<string>) {
    t.Some? && t.value != ""
  }

  /** The item of `row` for the pair, when both `row.words[src]` and `row.words[tgt]` are truthy. */
  function PairOfRow(row: WordRow, src: string, tgt: string): Option<WordItem> {
    var textSrc := Get(row.words, src);
    var textTgt := Get(row.words, tgt);
    if Truthy(textSrc) && Truthy(textTgt) then
      Some(WordItem(PairId(row.id, src, tgt), src, tgt, textSrc.value, textTgt.value,
                    row.times, row.errors, row.lastReview, row.spellErrors, row.notes, row.stars))
    else None
  }

  /** `generateLanguagePairs(rows, src, tgt)`. */
  function PairsOfRows(rows: seq<WordRow>, src: string, tgt: string): seq<WordItem> {
    if rows == [] then []
    else
      var init := PairsOfRows(rows[..|rows| - 1], src, tgt);
      match PairOfRow(rows[|rows| - 1], src, tgt)
      case Some(it) => init + [it]
      case None => init
  }

  /** The `forEach` loop of `generateLanguagePairs`. */
  method GenerateLanguagePairs(rows: seq<WordRow>, src: string, tgt: string) returns (items: seq<WordItem>)
    ensures items == PairsOfRows(rows, src, tgt)
  {
    items := [];
    for k := 0 to |rows|
      invariant items == PairsOfRows(rows[..k], src, tgt)
    {
      var row := rows[k];
      var sourceText := Get(row.words, src);
      var targetText := Get(row.words, tgt);
      if Truthy(sourceText) && Truthy(targetText) {
        items := items + [WordItem(PairId(row.id, src, tgt), src, tgt, sourceText.value, targetText.value,
                                   row.times, row.errors, row.lastReview, row.spellErrors, row.notes, row.stars)];
      }
      assert rows[..k + 1][..k] == rows[..k];
    }
    assert rows[..|rows|] == rows;
  }

  /** `r` is the pair's item of one of `rows`. */
  ghost predicate FromSomeRow(rows: seq<WordRow>, src: string, tgt: string, r: WordItem) {
    exists m :: 0 <= m < |rows| && PairOfRow(rows[m], src, tgt) == Some(r)
  }

  /** The item of one row has the requested languages and non-empty texts. */
  lemma PairOfRowShape(row: WordRow, src: string, tgt: string)
    ensures PairOfRow(row, src, tgt).Some? ==>
      var it := PairOfRow(row, src, tgt).value;
      it.langSrc == src && it.langTgt == tgt && it.textSrc != "" && it.textTgt != ""
  {
  }

  /** At most one item per row, each the item of some row. */
  lemma {:induction false} PairsOfRowsFrom(rows: seq<WordRow>, src: string, tgt: string)
    ensures var r := PairsOfRows(rows, src, tgt);
      |r| <= |rows| && forall k :: 0 <= k < |r| ==> FromSomeRow(rows, src, tgt, r[k])
  {
    if rows != [] {
      var init, last := rows[..|rows| - 1], rows[|rows| - 1];
      var before := PairsOfRows(init, src, tgt);
      var r := PairsOfRows(rows, src, tgt);
      PairsOfRowsFrom(init, src, tgt);
      forall k | 0 <= k < |r| ensures FromSomeRow(rows, src, tgt, r[k]) {
        if k < |before| {
          var m :| 0 <= m < |init| && PairOfRow(init[m], src, tgt) == Some(before[k]);
          assert rows[m] == init[m];
        } else {
          assert PairOfRow(rows[|rows| - 1], src, tgt) == Some(r[k]);
        }
      }
    }
  }

  /** Every row with both texts contributes its item. */
  lemma {:induction false} PairsOfRowsComplete(rows: seq<WordRow>, src: string, tgt: string)
    ensures forall m :: 0 <= m < |rows| && PairOfRow(rows[m], src, tgt).Some? ==>
      PairOfRow(rows[m], src, tgt).value in PairsOfRows(rows, src, tgt)
  {
    if rows != [] {
      var init := rows[..|rows| - 1];
      var before := PairsOfRows(init, src, tgt);
      PairsOfRowsComplete(init, src, tgt);
      forall m | 0 <= m < |rows| && PairOfRow(rows[m], src, tgt).Some?
        ensures PairOfRow(rows[m], src, tgt).value in PairsOfRows(rows, src, tgt)
      {
        if m < |init| {
          assert rows[m] == init[m];
          assert PairOfRow(rows[m], src, tgt).value in before;
        }
      }
    }
  }

  /**
   * At most one item per row; each one is the pair's item of some row, with
   * the requested languages and non-empty texts; and every row with both
   * texts contributes its item.
   */
  lemma PairsOfRowsSpec(rows: seq<WordRow>, src: string, tgt: string)
    ensures var r := PairsOfRows(rows, src, tgt);
      && |r| <= |rows|
      && (forall k :: 0 <= k < |r| ==>
            r[k].langSrc == src && r[k].langTgt == tgt && r[k].textSrc != "" && r[k].textTgt != "" &&
            FromSomeRow(rows, src, tgt, r[k]))
      && (forall m :: 0 <= m < |rows| && PairOfRow(rows[m], src, tgt).Some? ==>
            PairOfRow(rows[m], src, tgt).value in r)
  {
    var r := PairsOfRows(rows, src, tgt);
    PairsOfRowsFrom(rows, src, tgt);
    PairsOfRowsComplete(rows, src, tgt);
    forall k | 0 <= k < |r|
      ensures r[k].langSrc == src && r[k].langTgt == tgt && r[k].textSrc != "" && r[k].textTgt != ""
    {
      var m :| 0 <= m < |rows| && PairOfRow(rows[m], src, tgt) == Some(r[k]);
      PairOfRowShape(rows[m], src, tgt);
    }
  }

  /** `getLanguagePairs(src, tgt)` agrees with `getAllItems()` on distinct languages. */
  lemma PairsOfRowsInAllPairs(rows: seq<WordRow>, src: string, tgt: string)
    requires src != tgt
    requires forall m :: 0 <= m < |rows| ==> WellFormedRow(rows[m])
    ensures forall k :: 0 <= k < |PairsOfRows(rows, src, tgt)| ==>
      PairsOfRows(rows, src, tgt)[k] in AllPairs(rows, true)
  {
    var r := PairsOfRows(rows, src, tgt);
    PairsOfRowsSpec(rows, src, tgt);
    forall k | 0 <= k < |r|
      ensures r[k] in AllPairs(rows, true)
    {
      var m :| 0 <= m < |rows| && PairOfRow(rows[m], src, tgt) == Some(r[k]);
      PairOfRowIsPair(rows[m], src, tgt);
      InAllPairs(rows, m, r[k]);
    }
  }

  /** The pair's item of a row is one of the row's expansion items. */
  lemma PairOfRowIsPair(row: WordRow, src: string, tgt: string)
    requires src != tgt && PairOfRow(row, src, tgt).Some?
    ensures PairOfRow(row, src, tgt).value in RowPairs(row, true)
  {
    var i := GetIndex(row.words, src);
    var j := GetIndex(row.words, tgt);
    assert PairItem(row, i, j, true) == PairOfRow(row, src, tgt).value;
    RowPairsCover(row, true);
  }

  lemma {:induction false} InAllPairs(rows: seq<WordRow>, m: nat, x: WordItem)
    requires m < |rows| && x in RowPairs(rows[m], true)
    ensures x in AllPairs(rows, true)
  {
    var init := rows[..|rows| - 1];
    if m < |rows| - 1 {
      assert init[m] == rows[m];
      InAllPairs(init, m, x);
    }
  }

  // ---------------------------------------------------------------------
  // getAllLanguagePairs
  // ---------------------------------------------------------------------

  /** The languages of `rows`, each once, in order of first occurrence. */
  function Languages(rows: seq<WordRow>): seq<string> {
    if rows == [] then []
    else AddAll(Languages(rows[..|rows| - 1]), Keys(rows[|rows| - 1].words))
  }

  /** `l` is a key of some row's words. */
  ghost predicate IsLanguageOf(rows: seq<WordRow>, l: string) {
    exists m :: 0 <= m < |rows| && HasKey(rows[m].words, l)
  }

  lemma {:induction false} LanguagesSpec(rows: seq<WordRow>)
    ensures NoDup(Languages(rows))
    ensures forall l :: l in Languages(rows) <==> IsLanguageOf(rows, l)
  {
    if rows != [] {
      var init := rows[..|rows| - 1];
      LanguagesSpec(init);
      forall l
        ensures IsLanguageOf(rows, l) <==> IsLanguageOf(init, l) || HasKey(rows[|rows| - 1].words, l)
      {
        if IsLanguageOf(rows, l) {
          var m :| 0 <= m < |rows| && HasKey(rows[m].words, l);
          if m < |init| { assert init[m] == rows[m]; }
        }
        if IsLanguageOf(init, l) {
          var m :| 0 <= m < |init| && HasKey(init[m].words, l);
          assert rows[m] == init[m];
        }
      }
    }
  }

  /** The pairs of languages at the index pairs `ps`. */
  function PairsAt(langs: seq<string>, ps: seq<(nat, nat)>): (r: seq<LanguagePair>)
    requires forall k :: 0 <= k < |ps| ==> ps[k].0 < |langs| && ps[k].1 < |langs|
    ensures |r| == |ps|
  {
    seq(|ps|, k requires 0 <= k < |ps| => LanguagePair(langs[ps[k].0], langs[ps[k].1]))
  }

  /** `getAllLanguagePairs(rows)`. */
  function AllLanguagePairs(rows: seq<WordRow>): seq<LanguagePair> {
    var langs := Languages(rows);
    PairsAt(langs, IndexPairs(|langs|))
  }

  /** Distinct languages at lexicographically sorted off-diagonal index pairs give distinct pairs of distinct languages. */
  lemma PairsAtDistinct(langs: seq<string>, ps: seq<(nat, nat)>)
    requires NoDup(langs) && LexSorted(ps)
    requires forall k :: 0 <= k < |ps| ==> ps[k].0 < |langs| && ps[k].1 < |langs| && ps[k].0 != ps[k].1
    ensures var r := PairsAt(langs, ps);
      && NoDup(r)
      && forall k :: 0 <= k < |r| ==> r[k].source != r[k].target && r[k].source in langs && r[k].target in langs
  {
    var r := PairsAt(langs, ps);
    forall k1, k2 | 0 <= k1 < k2 < |r| ensures r[k1] != r[k2] {
      assert Before(ps[k1], ps[k2]);
      assert ps[k1].0 != ps[k2].0 ==> langs[ps[k1].0] != langs[ps[k2].0];
      assert ps[k1].1 != ps[k2].1 ==> langs[ps[k1].1] != langs[ps[k2].1];
    }
    forall k | 0 <= k < |r| ensures r[k].source != r[k].target {
      assert langs[ps[k].0] != langs[ps[k].1];
    }
  }

  /** Every pair of distinct listed languages is found at the index pairs `IndexPairs` visits. */
  lemma PairsAtComplete(langs: seq<string>, a: string, b: string)
    requires a in langs && b in langs && a != b
    ensures LanguagePair(a, b) in PairsAt(langs, IndexPairs(|langs|))
  {
    var n := |langs|;
    var ps := IndexPairs(n);
    IndexPairsSortedAndComplete(n);
    var i :| 0 <= i < n && langs[i] == a;
    var j :| 0 <= j < n && langs[j] == b;
    assert Has(ps, i, j);
    var k :| 0 <= k < |ps| && ps[k] == (i, j);
    assert PairsAt(langs, ps)[k] == LanguagePair(a, b);
  }

  /**
   * Every ordered pair of distinct languages of the rows, each once:
   * `L * (L - 1)` of them for `L` languages.
   */
  lemma AllLanguagePairsSpec(rows: seq<WordRow>)
    ensures var langs := Languages(rows);
      var r := AllLanguagePairs(rows);
      && |r| == |langs| * (|langs| - 1)
      && NoDup(r)
      && (forall k :: 0 <= k < |r| ==>
            r[k].source != r[k].target && IsLanguageOf(rows, r[k].source) && IsLanguageOf(rows, r[k].target))
      && (forall a, b :: IsLanguageOf(rows, a) && IsLanguageOf(rows, b) && a != b ==>
            LanguagePair(a, b) in r)
  {
    var langs := Languages(rows);
    LanguagesSpec(rows);
    IndexPairsSortedAndComplete(|langs|);
    PairsAtDistinct(langs, IndexPairs(|langs|));
    forall a, b | IsLanguageOf(rows, a) && IsLanguageOf(rows, b) && a != b
      ensures LanguagePair(a, b) in AllLanguagePairs(rows)
    {
      PairsAtComplete(langs, a, b);
    }
  }

  /** The loops of `getAllLanguagePairs` that collect the languages into a `Set`. */
  method CollectLanguages(rows: seq<WordRow>) returns (langs: seq<string>)
    ensures langs == Languages(rows)
  {
    langs := [];
    for m := 0 to |rows|
      invariant langs == Languages(rows[..m])
    {
      var keys := Keys(rows[m].words);
      ghost var before := langs;
      for k := 0 to |keys|
        invariant langs == AddAll(before, keys[..k])
      {
        if keys[k] !in langs {
          langs := langs + [keys[k]];
        }
        assert keys[..k + 1][..k] == keys[..k];
      }
      assert keys[..|keys|] == keys;
      assert rows[..m + 1][..m] == rows[..m];
    }
    assert rows[..|rows|] == rows;
  }

  /** The nested loops of `getAllLanguagePairs` over the collected languages. */
  method OrderedPairs(langs: seq<string>) returns (pairs: seq<LanguagePair>)
    ensures pairs == PairsAt(langs, IndexPairs(|langs|))
  {
    var n := |langs|;
    pairs := [];
    for i := 0 to n
      invariant pairs == PairsAt(langs, Sources(n, i))
    {
      var row := PairsFrom(langs, i);
      PairsAtAppend(langs, Sources(n, i), Targets(i, n));
      pairs := pairs + row;
    }
  }

  /** The inner loop: the pairs with source `langs[i]`. */
  method PairsFrom(langs: seq<string>, i: nat) returns (pairs: seq<LanguagePair>)
    requires i < |langs|
    ensures pairs == PairsAt(langs, Targets(i, |langs|))
  {
    pairs := [];
    for j := 0 to |langs|
      invariant pairs == PairsAt(langs, Targets(i, j))
    {
      if i != j {
        PairsAtAppend(langs, Targets(i, j), [(i, j)]);
        pairs := pairs + [LanguagePair(langs[i], langs[j])];
      }
    }
  }

  lemma PairsAtAppend(langs: seq<string>, a: seq<(nat, nat)>, b: seq<(nat, nat)>)
    requires forall k :: 0 <= k < |a| ==> a[k].0 < |langs| && a[k].1 < |langs|
    requires forall k :: 0 <= k < |b| ==> b[k].0 < |langs| && b[k].1 < |langs|
    ensures PairsAt(langs, a + b) == PairsAt(langs, a) + PairsAt(langs, b)
  {
  }

  /** `getAllLanguagePairs(rows)`. */
  method GetAllLanguagePairs(rows: seq<WordRow>) returns (pairs: seq<LanguagePair>)
    ensures pairs == AllLanguagePairs(rows)
  {
    var langs := CollectLanguages(rows);
    pairs := OrderedPairs(langs);
  }
}
