/**
 * The records of the vocabulary application: a multi-language `WordRow`
 * (one entry per vocabulary item, all translations together) and the
 * pairwise `WordItem` (one source/target language pair) that legacy code,
 * export and storage still use.
 */
module Types {
  import opened Wrappers
  import opened OrderedMap

  /** language -> text, in `Object.keys` order. */
  type Words = seq<(string, string)>

  /** Per-language-pair learning progress (kept, never computed here). */
  datatype Progress = Progress(times: int, errors: int, lastReview: Option<string>)

  /**
   * `stars` is optional because rows rebuilt from storage carry none;
   * `lastReview` and `notes` are the optional string fields.
   */
  datatype WordRow = WordRow(
    id: string,
    words: Words,
    times: int,
    errors: int,
    lastReview: Option<string>,
    spellErrors: int,
    notes: Option<string>,
    stars: Option<int>,
    progress: map<string, Progress>)

  datatype WordItem = WordItem(
    id: string,
    langSrc: string,
    langTgt: string,
    textSrc: string,
    textTgt: string,
    times: int,
    errors: int,
    lastReview: Option<string>,
    spellErrors: int,
    notes: Option<string>,
    stars: Option<int>)

  datatype LanguagePair = LanguagePair(source: string, target: string)

  /**
   * `Date.parse`: milliseconds since the epoch, `None` for `NaN`. The date
   * grammar belongs to the JavaScript engine, so it is a parameter.
   */
  type DateParser = string -> Option<int>

  /** `parseInt` (decimal unless prefixed by `0x`), `None` for `NaN`. */
  type IntParser = string -> Option<int>

  /** A row is well formed when its `words` object lists every key once. */
  ghost predicate WellFormedRow(row: WordRow) {
    UniqueKeys(row.words)
  }

  /** `rows.findIndex(row => row.id === id)`, with `None` for -1. */
  function RowIndex(rows: seq<WordRow>, id: string): (r: Option<nat>)
    ensures r.Some? ==> r.value < |rows| && rows[r.value].id == id
    ensures r.Some? ==> forall k :: 0 <= k < r.value ==> rows[k].id != id
    ensures r.None? <==> forall k :: 0 <= k < |rows| ==> rows[k].id != id
  {
    if rows == [] then None
    else if rows[0].id == id then Some(0)
    else match RowIndex(rows[1..], id)
         case None => None
         case Some(i) => Some(i + 1)
  }

  /** The ids of the rows, in order. */
  function RowIds(rows: seq<WordRow>): (ids: seq<string>)
    ensures |ids| == |rows| && forall k :: 0 <= k < |rows| ==> ids[k] == rows[k].id
  {
    seq(|rows|, k requires 0 <= k < |rows| => rows[k].id)
  }
}
