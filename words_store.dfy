/**
 * The words store: the vocabulary as multi-language rows that the row and
 * item actions edit in place, loaded from CSV all at once, persisted as the
 * pairwise items of every row and restored by grouping those items back.
 * The derived views (`learnedWords`, `languageDistribution`, `filtered`,
 * `getWordsNeedingReview`) are functions of the rows or of an item list.
 */
module WordsStore {
  import opened Wrappers
  import opened Seqs
  import opened Strings
  import opened OrderedMap
  import opened Types
  import opened Learning
  import Csv
  import CsvItems
  import opened WordPairs
  import LanguagePairs

  // ---------------------------------------------------------------------
  // Getters
  // ---------------------------------------------------------------------

  /** A row studied at least once. */
  predicate Studied(row: WordRow) {
    row.times > 0
  }

  /** `learnedWords`: `rows.filter(row => row.times > 0).length`. */
  function LearnedWords(rows: seq<WordRow>): (n: nat)
    ensures n <= |rows|
    ensures n == |set k | 0 <= k < |rows| && rows[k].times > 0|
  {
    StudiedCount(rows);
    |Filter(rows, Studied)|
  }

  /** The studied rows kept by the filter are the rows at the studied positions. */
  lemma StudiedCount(rows: seq<WordRow>)
    ensures |Filter(rows, Studied)| == |set k | 0 <= k < |rows| && rows[k].times > 0|
  {
    FilterCard(rows, Studied);
    assert Satisfying(rows, Studied) == set k | 0 <= k < |rows| && rows[k].times > 0;
  }

  /**
   * No row counts exactly when none was studied, all count exactly when
   * every row was, and a row added last counts exactly when it was studied.
   */
  lemma LearnedWordsSpec(rows: seq<WordRow>, row: WordRow)
    ensures LearnedWords(rows) == 0 <==> forall k :: 0 <= k < |rows| ==> rows[k].times <= 0
    ensures LearnedWords(rows) == |rows| <==> forall k :: 0 <= k < |rows| ==> rows[k].times > 0
    ensures LearnedWords(rows + [row]) == LearnedWords(rows) + (if row.times > 0 then 1 else 0)
  {
    FilterCount(rows, Studied);
    FilterSnoc(rows, row, Studied);
  }

  /** A counter per language, in the order the languages are first met. */
  type Distribution = seq<(string, int)>

  /** `distribution[lang] || 0`. */
  function Tally(dist: Distribution, lang: string): int {
    Get(dist, lang).GetOr(0)
  }

  /** `langs.forEach(lang => { distribution[lang] = (distribution[lang] || 0) + 1 })`. */
  function CountKeys(dist: Distribution, langs: seq<string>): Distribution
    decreases |langs|
  {
    if langs == [] then dist
    else CountKeys(Put(dist, langs[0], Tally(dist, langs[0]) + 1), langs[1..])
  }

  /** `languageDistribution`: every row's languages counted, row after row. */
  function LanguageDistribution(rows: seq<WordRow>): Distribution {
    if rows == [] then []
    else CountKeys(LanguageDistribution(rows[..|rows| - 1]), Keys(rows[|rows| - 1].words))
  }

  /** The row has an entry for `lang`. */
  function HasLanguage(lang: string): WordRow -> bool {
    (row: WordRow) => HasKey(row.words, lang)
  }

  /** The number of rows that have an entry for `lang`. */
  function RowsWith(rows: seq<WordRow>, lang: string): nat {
    |Filter(rows, HasLanguage(lang))|
  }

  /**
   * Counting a list of languages adds to each counter the number of times
   * its language is listed, and creates the counters of the new ones only.
   */
  lemma {:induction false} CountKeysSpec(dist: Distribution, langs: seq<string>, lang: string)
    ensures Tally(CountKeys(dist, langs), lang) == Tally(dist, lang) + Occ(langs, lang)
    ensures HasKey(CountKeys(dist, langs), lang) <==> HasKey(dist, lang) || Occ(langs, lang) > 0
    decreases |langs|
  {
    if langs != [] {
      CountKeysSpec(Put(dist, langs[0], Tally(dist, langs[0]) + 1), langs[1..], lang);
    }
  }

  /** The row's keys, once each: membership is `HasKey`. */
  lemma RowKeys(row: WordRow, lang: string)
    requires WellFormedRow(row)
    ensures NoDup(Keys(row.words))
    ensures lang in Keys(row.words) <==> HasLanguage(lang)(row)
  {
  }

  /**
   * `languageDistribution[lang]` is the number of rows that have `lang`, and
   * there is no entry for a language no row has.
   */
  lemma {:induction false} LanguageDistributionCounts(rows: seq<WordRow>, lang: string)
    requires forall k :: 0 <= k < |rows| ==> WellFormedRow(rows[k])
    ensures Tally(LanguageDistribution(rows), lang) == RowsWith(rows, lang)
    ensures HasKey(LanguageDistribution(rows), lang) <==> RowsWith(rows, lang) > 0
  {
    if rows != [] {
      var init, last := rows[..|rows| - 1], rows[|rows| - 1];
      assert rows == init + [last];
      LanguageDistributionCounts(init, lang);
      RowKeys(last, lang);
      OccNoDup(Keys(last.words), lang);
      CountKeysSpec(LanguageDistribution(init), Keys(last.words), lang);
      FilterSnoc(init, last, HasLanguage(lang));
      assert RowsWith(rows, lang) == RowsWith(init, lang) + Occ(Keys(last.words), lang);
    }
  }

  /** The same, read as the object's property: a count, or `undefined`. */
  lemma LanguageDistributionSpec(rows: seq<WordRow>, lang: string)
    requires forall k :: 0 <= k < |rows| ==> WellFormedRow(rows[k])
    ensures Get(LanguageDistribution(rows), lang) ==
      if RowsWith(rows, lang) > 0 then Some(RowsWith(rows, lang)) else None
  {
    LanguageDistributionCounts(rows, lang);
  }

  // ---------------------------------------------------------------------
  // Patches
  // ---------------------------------------------------------------------

  /**
   * `Partial<WordRow>`: a field is `Some` when the patch object has that
   * property, with the property's value inside.
   */
  datatype RowPatch = RowPatch(
    id: Option<string>,
    words: Option<Words>,
    times: Option<int>,
    errors: Option<int>,
    lastReview: Option<Option<string>>,
    spellErrors: Option<int>,
    notes: Option<Option<string>>,
    stars: Option<Option<int>>,
    progress: Option<map<string, Progress>>)

  /** `{ ...row, ...patch }`: every property of the patch replaces the row's. */
  function Merge(row: WordRow, patch: RowPatch): WordRow {
    WordRow(patch.id.GetOr(row.id), patch.words.GetOr(row.words), patch.times.GetOr(row.times),
            patch.errors.GetOr(row.errors), patch.lastReview.GetOr(row.lastReview),
            patch.spellErrors.GetOr(row.spellErrors), patch.notes.GetOr(row.notes),
            patch.stars.GetOr(row.stars), patch.progress.GetOr(row.progress))
  }

  /** The patch with no property. */
  const EmptyPatch := RowPatch(None, None, None, None, None, None, None, None, None)

  /** `{ ...p, ...q }` of two patches. */
  function Spread<T>(p: Option<T>, q: Option<T>): Option<T> {
    if q.Some? then q else p
  }

  function Combine(p: RowPatch, q: RowPatch): RowPatch {
    RowPatch(Spread(p.id, q.id), Spread(p.words, q.words), Spread(p.times, q.times),
             Spread(p.errors, q.errors), Spread(p.lastReview, q.lastReview),
             Spread(p.spellErrors, q.spellErrors), Spread(p.notes, q.notes),
             Spread(p.stars, q.stars), Spread(p.progress, q.progress))
  }

  /**
   * Spreading: an empty patch changes nothing, applying a patch twice is
   * applying it once, and two patches in a row are their combination.
   */
  lemma MergeSpec(row: WordRow, p: RowPatch, q: RowPatch)
    ensures Merge(row, EmptyPatch) == row
    ensures Merge(Merge(row, p), p) == Merge(row, p)
    ensures Merge(Merge(row, p), q) == Merge(row, Combine(p, q))
  {
  }

  /** The `Partial<WordItem>` fields `updateItem` reads; `Some` when given (not `undefined`). */
  datatype ItemPatch = ItemPatch(
    times: Option<int>,
    errors: Option<int>,
    lastReview: Option<string>,
    spellErrors: Option<int>,
    notes: Option<string>)

  /** `if (patch.times !== undefined) row.times = patch.times; …` for the five statistics. */
  function ApplyItemPatch(row: WordRow, patch: ItemPatch): (r: WordRow)
    ensures r.id == row.id && r.words == row.words && r.stars == row.stars && r.progress == row.progress
    ensures r.times == patch.times.GetOr(row.times) && r.errors == patch.errors.GetOr(row.errors)
    ensures r.lastReview == (if patch.lastReview.Some? then patch.lastReview else row.lastReview)
    ensures r.spellErrors == patch.spellErrors.GetOr(row.spellErrors)
    ensures r.notes == (if patch.notes.Some? then patch.notes else row.notes)
  {
    var r := if patch.times.Some? then row.(times := patch.times.value) else row;
    var r := if patch.errors.Some? then r.(errors := patch.errors.value) else r;
    var r := if patch.lastReview.Some? then r.(lastReview := patch.lastReview) else r;
    var r := if patch.spellErrors.Some? then r.(spellErrors := patch.spellErrors.value) else r;
    if patch.notes.Some? then r.(notes := patch.notes) else r
  }

  /**
   * The row `addItem` creates when no row has the item's base id: that id,
   * the item's two texts and its statistics, and no progress.
   */
  function NewRow(item: WordItem): (row: WordRow)
    ensures row.id == BaseId(item.id)
    ensures Get(row.words, item.langTgt) == Some(item.textTgt)
    ensures item.langSrc != item.langTgt ==> Get(row.words, item.langSrc) == Some(item.textSrc)
    ensures forall l :: l != item.langSrc && l != item.langTgt ==> !HasKey(row.words, l)
    ensures WellFormedRow(row)
    ensures row.times == item.times && row.errors == item.errors && row.lastReview == item.lastReview
    ensures row.spellErrors == item.spellErrors && row.notes == item.notes && row.stars == item.stars
    ensures row.progress == map[]
  {
    StartRow(item).(words := Observe([], item))
  }

  /** Appending a row with a new id makes it the first row with that id. */
  lemma RowIndexAppend(rows: seq<WordRow>, row: WordRow)
    requires RowIndex(rows, row.id).None?
    ensures RowIndex(rows + [row], row.id) == Some(|rows|)
  {
    if rows != [] {
      assert (rows + [row])[1..] == rows[1..] + [row];
      RowIndexAppend(rows[1..], row);
    }
  }

  /** Replacing a row by one with the same id keeps where that id is found. */
  lemma RowIndexUpdate(rows: seq<WordRow>, k: nat, row: WordRow)
    requires k < |rows| && RowIndex(rows, rows[k].id) == Some(k) && row.id == rows[k].id
    ensures RowIndex(rows[k := row], row.id) == Some(k)
  {
    var rows' := rows[k := row];
    assert forall j :: 0 <= j < k ==> rows'[j].id != row.id;
    RowIndexIs(rows', k);
  }

  // ---------------------------------------------------------------------
  // The store
  // ---------------------------------------------------------------------

  class Store {
    var rows: seq<WordRow>
    var dirty: bool
    var error: Option<string>

    /** Every row's `words` lists each language once, as a JavaScript object does. */
    ghost predicate Valid()
      reads this
    {
      forall k :: 0 <= k < |rows| ==> WellFormedRow(rows[k])
    }

    constructor()
      ensures rows == [] && !dirty && error == None && Valid()
    {
      rows := [];
      dirty := false;
      error := None;
    }

    /**
     * `loadFromCsv`: all or nothing. Any error leaves the rows as they were;
     * otherwise the rows become the parsed rows and are persisted.
     * `saveFailure` is the message of a failed `saveWords`.
     */
    method LoadFromCsv(parseInt: IntParser, parseDate: DateParser, freshId: nat -> string, parsed: Csv.Parsed,
                       saveFailure: Option<string>)
      returns (success: bool, errors: seq<string>)
      modifies this
      ensures var result := Csv.ParseCsvToWordRows(parseInt, parseDate, freshId, parsed);
        && (success <==> result.errors == [])
        && (!success ==> errors == result.errors && rows == old(rows) && dirty == old(dirty) && error == None)
        && (success ==> errors == [] && rows == result.data && dirty == saveFailure.Some? && error == saveFailure)
      ensures success || old(Valid()) ==> Valid()
    {
      error := None;
      var result := Csv.ParseWordRows(parseInt, parseDate, freshId, parsed);
      Csv.ParseCsvToWordRowsWellFormed(parseInt, parseDate, freshId, parsed);
      if result.errors != [] {
        return false, result.errors;
      }
      rows := result.data;
      dirty := true;
      var saved := Persist(saveFailure);
      return true, [];
    }

    /** `exportCsv`: the records of every row's items, `stars` included. */
    method ExportCsv() returns (records: seq<Csv.Record>)
      ensures records == CsvItems.ConvertWordsToCsv(AllPairs(rows, true))
    {
      var items := ExpandRows(rows, true);
      records := CsvItems.ConvertWordsToCsv(items);
    }

    /** `addRow`: the row goes last. */
    method AddRow(row: WordRow)
      modifies this
      ensures rows == old(rows) + [row] && dirty && error == old(error)
      ensures old(Valid()) && WellFormedRow(row) ==> Valid()
    {
      rows := rows + [row];
      dirty := true;
    }

    /** `updateRow`: the first row with the id takes the patch; nothing happens when there is none. */
    method UpdateRow(id: string, patch: RowPatch)
      modifies this
      ensures match RowIndex(old(rows), id)
        case None => rows == old(rows) && dirty == old(dirty)
        case Some(k) => rows == old(rows)[k := Merge(old(rows)[k], patch)] && dirty
      ensures error == old(error)
      ensures old(Valid()) && (patch.words.Some? ==> UniqueKeys(patch.words.value)) ==> Valid()
    {
      var index := RowIndex(rows, id);
      if index.Some? {
        rows := rows[index.value := Merge(rows[index.value], patch)];
        dirty := true;
      }
    }

    /** `deleteRow`: only the first row with the id goes; nothing happens when there is none. */
    method DeleteRow(id: string)
      modifies this
      ensures match RowIndex(old(rows), id)
        case None => rows == old(rows) && dirty == old(dirty)
        case Some(k) => rows == RemoveAt(old(rows), k) && dirty
      ensures error == old(error)
      ensures old(Valid()) ==> Valid()
    {
      var index := RowIndex(rows, id);
      if index.Some? {
        rows := RemoveAt(rows, index.value);
        dirty := true;
      }
    }

    /**
     * `addItem`: the row with the item's base id receives both texts and keeps
     * its statistics; without such a row, a new one is appended.
     */
    method AddItem(item: WordItem)
      modifies this
      ensures match RowIndex(old(rows), BaseId(item.id))
        case Some(k) => rows == old(rows)[k := old(rows)[k].(words := Observe(old(rows)[k].words, item))]
        case None => rows == old(rows) + [NewRow(item)]
      ensures dirty && error == old(error)
      ensures var found := RowIndex(rows, BaseId(item.id));
        && found.Some?
        && Get(rows[found.value].words, item.langTgt) == Some(item.textTgt)
        && (item.langSrc != item.langTgt ==> Get(rows[found.value].words, item.langSrc) == Some(item.textSrc))
      ensures old(Valid()) ==> Valid()
    {
      var baseId := BaseId(item.id);
      var index := RowIndex(rows, baseId);
      match index
      case Some(k) =>
        var row := rows[k];
        rows := rows[k := row.(words := Observe(row.words, item))];
        RowIndexUpdate(old(rows), k, rows[k]);
        dirty := true;
      case None =>
        var newRow := NewRow(item);
        RowIndexAppend(rows, newRow);
        AddRow(newRow);
    }

    /** `updateItem`: the five statistics of the row with the item's base id. */
    method UpdateItem(id: string, patch: ItemPatch)
      modifies this
      ensures match RowIndex(old(rows), BaseId(id))
        case None => rows == old(rows) && dirty == old(dirty)
        case Some(k) => rows == old(rows)[k := ApplyItemPatch(old(rows)[k], patch)] && dirty
      ensures error == old(error)
      ensures old(Valid()) ==> Valid()
    {
      var index := RowIndex(rows, BaseId(id));
      if index.Some? {
        rows := rows[index.value := ApplyItemPatch(rows[index.value], patch)];
        dirty := true;
      }
    }

    /** `deleteItem`: the whole row of the item's base id. */
    method DeleteItem(id: string)
      modifies this
      ensures match RowIndex(old(rows), BaseId(id))
        case None => rows == old(rows) && dirty == old(dirty)
        case Some(k) => rows == RemoveAt(old(rows), k) && dirty
      ensures error == old(error)
      ensures old(Valid()) ==> Valid()
    {
      DeleteRow(BaseId(id));
    }

    /** `bulkAddToQueue`: the queue store does the work; this one only marks itself dirty. */
    method BulkAddToQueue(ids: seq<string>)
      modifies this
      ensures rows == old(rows) && dirty && error == old(error)
    {
      dirty := true;
    }

    /**
     * `persist`: the items handed to `saveWords`, every row's pairs without
     * `stars`. `saveFailure` is the message of a failed save.
     */
    method Persist(saveFailure: Option<string>) returns (saved: seq<WordItem>)
      modifies this
      ensures saved == AllPairs(rows, false) && rows == old(rows)
      ensures saveFailure.None? ==> !dirty && error == old(error)
      ensures saveFailure.Some? ==> dirty == old(dirty) && error == saveFailure
    {
      saved := ExpandRows(rows, false);
      if saveFailure.None? {
        dirty := false;
      } else {
        error := saveFailure;
      }
    }

    /**
     * `restore`: the rows rebuilt from what `loadWords` returned, or the
     * rows kept and the failure's message recorded.
     */
    method Restore(loaded: Result<seq<WordItem>, string>)
      modifies this
      ensures loaded.Ok? ==> rows == Collapse(loaded.value) && !dirty && error == None
      ensures loaded.Err? ==> rows == old(rows) && dirty == old(dirty) && error == Some(loaded.error)
      ensures loaded.Ok? || old(Valid()) ==> Valid()
    {
      error := None;
      match loaded
      case Ok(saved) =>
        rows := CollapseItems(saved);
        CollapseWellFormed(saved);
        dirty := false;
      case Err(message) =>
        error := Some(message);
    }

    method ClearError()
      modifies this
      ensures rows == old(rows) && dirty == old(dirty) && error == None
    {
      error := None;
    }

    method Reset()
      modifies this
      ensures rows == [] && !dirty && error == None && Valid()
    {
      rows := [];
      dirty := false;
      error := None;
    }

    /** `getLanguagePairs(src, tgt)`: `generateLanguagePairs` over the rows. */
    method GetLanguagePairs(src: string, tgt: string) returns (items: seq<WordItem>)
      ensures items == LanguagePairs.PairsOfRows(rows, src, tgt)
    {
      items := LanguagePairs.GenerateLanguagePairs(rows, src, tgt);
    }

    /** `getAllAvailableLanguagePairs`: `getAllLanguagePairs` over the rows. */
    method GetAllAvailableLanguagePairs() returns (pairs: seq<LanguagePair>)
      ensures pairs == LanguagePairs.AllLanguagePairs(rows)
    {
      pairs := LanguagePairs.GetAllLanguagePairs(rows);
    }

    /** `getAllItems`: every row's pairs, `stars` included. */
    method GetAllItems() returns (items: seq<WordItem>)
      ensures items == AllPairs(rows, true)
    {
      items := ExpandRows(rows, true);
    }
  }

  /**
   * What `persist` saves, `restore` turns back into the same rows, without
   * `stars` or `progress`, when every row has two languages or more, an id
   * without `_`, and no two rows share an id.
   */
  lemma PersistRestore(rows: seq<WordRow>)
    requires forall k :: 0 <= k < |rows| ==> RoundTrips(rows[k])
    requires forall k1, k2 :: 0 <= k1 < k2 < |rows| ==> rows[k1].id != rows[k2].id
    ensures Collapse(AllPairs(rows, false)) == RestoredRows(rows, false)
    ensures forall k :: 0 <= k < |rows| ==>
      RestoredRows(rows, false)[k] == rows[k].(stars := None, progress := map[])
  {
    RestoreAfterExpand(rows, false);
  }

  /** Deleting an item of a row whose id has no `_` finds that row. */
  lemma DeleteItemFindsRow(row: WordRow, it: WordItem)
    requires '_' !in row.id && it in RowPairs(row, true)
    ensures BaseId(it.id) == row.id
  {
    RowPairsBaseId(row, true);
  }

  // ---------------------------------------------------------------------
  // Views over an item list
  // ---------------------------------------------------------------------

  /** `Filters`; `null` dates are `None`. */
  datatype Filters = Filters(
    srcLanguages: seq<string>,
    tgtLanguages: seq<string>,
    errorMin: int,
    errorMax: int,
    dateFrom: Option<string>,
    dateTo: Option<string>,
    keyword: string)

  /** A present, non-empty text. */
  predicate Given(t: Option<string>) {
    t.Some? && t.value != ""
  }

  /** The source language is listed, or no source language is asked for. */
  function SrcAllowed(f: Filters): WordItem -> bool {
    (it: WordItem) => |f.srcLanguages| == 0 || it.langSrc in f.srcLanguages
  }

  function TgtAllowed(f: Filters): WordItem -> bool {
    (it: WordItem) => |f.tgtLanguages| == 0 || it.langTgt in f.tgtLanguages
  }

  function ErrorsInRange(f: Filters): WordItem -> bool {
    (it: WordItem) => f.errorMin <= it.errors <= f.errorMax
  }

  /**
   * `new Date(item.last_review) >= new Date(from)`, with no review date
   * failing; an unreadable date compares as `NaN`, which fails.
   */
  function ReviewedFrom(parseDate: DateParser, f: Filters): WordItem -> bool {
    (it: WordItem) =>
      !Given(f.dateFrom) ||
      (Given(it.lastReview) &&
       var d, from := parseDate(it.lastReview.value), parseDate(f.dateFrom.value);
       d.Some? && from.Some? && d.value >= from.value)
  }

  /** `new Date(item.last_review) <= new Date(to)`, with no review date passing. */
  function ReviewedTo(parseDate: DateParser, f: Filters): WordItem -> bool {
    (it: WordItem) =>
      !Given(f.dateTo) ||
      !Given(it.lastReview) ||
      (var d, to := parseDate(it.lastReview.value), parseDate(f.dateTo.value);
       d.Some? && to.Some? && d.value <= to.value)
  }

  /**
   * The lower-cased keyword occurs in the lower-cased source text, target
   * text or notes; a keyword that is blank once trimmed matches everything.
   */
  function MentionsKeyword(f: Filters): WordItem -> bool {
    (it: WordItem) =>
      Trim(f.keyword) == "" ||
      (var keyword := ToLower(f.keyword);
       Includes(ToLower(it.textSrc), keyword) || Includes(ToLower(it.textTgt), keyword) ||
       (Given(it.notes) && Includes(ToLower(it.notes.value), keyword)))
  }

  /** `filtered(filters)` over the given items: the filters one after the other. */
  function Filtered(parseDate: DateParser, items: seq<WordItem>, f: Filters): seq<WordItem> {
    var a := if |f.srcLanguages| > 0 then Filter(items, SrcAllowed(f)) else items;
    var b := if |f.tgtLanguages| > 0 then Filter(a, TgtAllowed(f)) else a;
    var c := Filter(b, ErrorsInRange(f));
    var d := if Given(f.dateFrom) then Filter(c, ReviewedFrom(parseDate, f)) else c;
    var e := if Given(f.dateTo) then Filter(d, ReviewedTo(parseDate, f)) else d;
    if Trim(f.keyword) != "" then Filter(e, MentionsKeyword(f)) else e
  }

  /** An item passes every filter. */
  predicate Matches(parseDate: DateParser, f: Filters, it: WordItem) {
    && SrcAllowed(f)(it) && TgtAllowed(f)(it) && ErrorsInRange(f)(it)
    && ReviewedFrom(parseDate, f)(it) && ReviewedTo(parseDate, f)(it) && MentionsKeyword(f)(it)
  }

  /** A filter that is switched off keeps everything. */
  lemma SkippedStage(s: seq<WordItem>, on: bool, p: WordItem -> bool)
    requires !on ==> forall x :: p(x)
    ensures (if on then Filter(s, p) else s) == Filter(s, p)
  {
    if !on {
      FilterAll(s, p);
    }
  }

  /** Two filters in a row are one filter by their conjunction. */
  lemma Then(s: seq<WordItem>, p: WordItem -> bool, q: WordItem -> bool, pq: WordItem -> bool)
    requires forall x :: pq(x) == (p(x) && q(x))
    ensures Filter(Filter(s, p), q) == Filter(s, pq)
  {
    FilterConj(s, p, q, pq);
  }

  /**
   * `filtered` keeps, in their order, exactly the items that pass every
   * filter: it is one `filter` by their conjunction.
   */
  lemma FilteredSpec(parseDate: DateParser, items: seq<WordItem>, f: Filters)
    ensures Filtered(parseDate, items, f) == Filter(items, it => Matches(parseDate, f, it))
  {
    var p1, p2, p3 := SrcAllowed(f), TgtAllowed(f), ErrorsInRange(f);
    var p4, p5, p6 := ReviewedFrom(parseDate, f), ReviewedTo(parseDate, f), MentionsKeyword(f);
    var q2 := x => p1(x) && p2(x);
    var q3 := x => q2(x) && p3(x);
    var q4 := x => q3(x) && p4(x);
    var q5 := x => q4(x) && p5(x);
    var q6 := x => q5(x) && p6(x);
    SkippedStage(items, |f.srcLanguages| > 0, p1);
    SkippedStage(Filter(items, p1), |f.tgtLanguages| > 0, p2);
    Then(items, p1, p2, q2);
    Then(items, q2, p3, q3);
    SkippedStage(Filter(items, q3), Given(f.dateFrom), p4);
    Then(items, q3, p4, q4);
    SkippedStage(Filter(items, q4), Given(f.dateTo), p5);
    Then(items, q4, p5, q5);
    SkippedStage(Filter(items, q5), Trim(f.keyword) != "", p6);
    Then(items, q5, p6, q6);
    FilterExt(items, q6, it => Matches(parseDate, f, it));
  }

  /** A `from` bound drops the items without a review date; a `to` bound keeps them. */
  lemma DateBoundsSpec(parseDate: DateParser, f: Filters, it: WordItem)
    requires !Given(it.lastReview)
    ensures ReviewedFrom(parseDate, f)(it) <==> !Given(f.dateFrom)
    ensures ReviewedTo(parseDate, f)(it)
  {
  }

  /** `item => needsReview(item, daysThreshold)`, with `Date.now()` as `now`. */
  function DueForReview(parseDate: DateParser, daysThreshold: real, now: int): WordItem -> bool {
    (it: WordItem) => NeedsReview(parseDate, it, daysThreshold, now)
  }

  /**
   * `getWordsNeedingReview(daysThreshold)` over the given items: the items
   * due for review, each occurrence kept, in their order.
   */
  function WordsNeedingReview(parseDate: DateParser, items: seq<WordItem>, daysThreshold: real, now: int)
    : (r: seq<WordItem>)
    ensures |r| <= |items|
    ensures forall it :: it in r <==> it in items && NeedsReview(parseDate, it, daysThreshold, now)
    ensures Picked(r, items, DueForReview(parseDate, daysThreshold, now))
  {
    FilterPicked(items, DueForReview(parseDate, daysThreshold, now));
    Filter(items, DueForReview(parseDate, daysThreshold, now))
  }
}
