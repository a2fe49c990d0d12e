/**
 * CSV import after lexing: the header checks and the row validation that turn
 * the records of the CSV lexer into multi-language `WordRow`s, the helpers
 * the other import formats share, and the header-level queries
 * (`extractLanguagesFromHeaders`, `createLanguageMapping`, `detectCsvFormat`).
 *
 * The lexer gives the trimmed header names (`meta.fields`), its own errors and
 * one record per non-empty data line, mapping a header to the cell's text.
 */
module Csv {
  import opened Wrappers
  import opened Seqs
  import opened Strings
  import opened OrderedMap
  import opened Types
  import opened Normalize

  // ---------------------------------------------------------------------
  // Lexer output and results
  // ---------------------------------------------------------------------

  /** One lexed data line: header -> cell text; a header the line lacks is absent. */
  type Record = map<string, string>

  /** A lexer error: the row it names (`undefined` when none) and its message. */
  datatype LexError = LexError(row: Option<int>, message: string)

  /** What `Papa.parse(csv, { header: true, skipEmptyLines: true, ... })` returns. */
  datatype Parsed = Parsed(errors: seq<LexError>, fields: Option<seq<string>>, data: seq<Record>)

  datatype Meta = Meta(fields: seq<string>, totalRows: nat, validRows: nat)

  /** `CsvResult<T>`. */
  datatype CsvResult<T> = CsvResult(data: seq<T>, errors: seq<string>, meta: Meta)

  /** `parseResult.meta.fields || []`. */
  function Headers(parsed: Parsed): seq<string> {
    parsed.fields.GetOr([])
  }

  /** `Row ${err.row}: ${err.message}`. */
  function LexMessage(e: LexError): string {
    var row := match e.row case Some(n) => IntToString(n) case None => "undefined";
    "Row " + row + ": " + e.message
  }

  function LexMessages(errs: seq<LexError>): (r: seq<string>)
    ensures |r| == |errs| && forall k :: 0 <= k < |errs| ==> r[k] == LexMessage(errs[k])
  {
    seq(|errs|, k requires 0 <= k < |errs| => LexMessage(errs[k]))
  }

  /** `Row ${index + 1}: ${message}` for the 0-based data-row `index`. */
  function RowMessage(index: nat, message: string): string {
    "Row " + IntToString(index + 1) + ": " + message
  }

  // ---------------------------------------------------------------------
  // Field access shared by all formats
  // ---------------------------------------------------------------------

  function Field(r: Record, key: string): (v: Option<string>)
    ensures v.Some? <==> key in r
  {
    if key in r then Some(r[key]) else None
  }

  /** `row[key]?.trim()`, read for truthiness: a missing cell is the empty text. */
  function Text(r: Record, key: string): (t: string)
    ensures key !in r ==> t == ""
    ensures key in r ==> t == Trim(r[key])
  {
    match Field(r, key)
    case Some(s) => Trim(s)
    case None => ""
  }

  /** `row[key]?.trim() || undefined`. */
  function Optional(r: Record, key: string): (v: Option<string>)
    ensures v.Some? <==> Text(r, key) != ""
    ensures v.Some? ==> v.value == Text(r, key)
  {
    var t := Text(r, key);
    if t != "" then Some(t) else None
  }

  /** `row.id?.trim() || generateWordId()`, with the generated id supplied. */
  function RowId(r: Record, freshId: string): (id: string)
    ensures Text(r, "id") != "" ==> id == Text(r, "id")
    ensures Text(r, "id") == "" ==> id == freshId
  {
    var t := Text(r, "id");
    if t != "" then t else freshId
  }

  /**
   * `parseInt(row[key]) || 0`, and equally `isNaN(parseInt(row.stars)) ? 0 :
   * parseInt(row.stars)`: a missing or non-numeric cell reads 0 (`parseInt`
   * of `undefined` is `NaN`).
   */
  function IntField(parseInt: IntParser, r: Record, key: string): (n: int)
    ensures key !in r || parseInt(r[key]).None? ==> n == 0
    ensures key in r && parseInt(r[key]).Some? ==> n == parseInt(r[key]).value
  {
    match Field(r, key)
    case None => 0
    case Some(s) => parseInt(s).GetOr(0)
  }

  /** The date check: `Invalid last_review date format: …` for a present, unparseable date. */
  function DateErrors(parseDate: DateParser, r: Record): (errs: seq<string>)
    ensures |errs| <= 1
    ensures errs != [] <==> Optional(r, "last_review").Some? && parseDate(Text(r, "last_review")).None?
    ensures errs != [] ==> errs[0] == "Invalid last_review date format: " + Text(r, "last_review")
  {
    match Optional(r, "last_review")
    case Some(lastReview) =>
      if parseDate(lastReview).None? then ["Invalid last_review date format: " + lastReview] else []
    case None => []
  }

  // ---------------------------------------------------------------------
  // Word columns
  // ---------------------------------------------------------------------

  predicate IsWordColumn(header: string) {
    StartsWith(header, "word_")
  }

  /** `headers.filter(header => header.startsWith('word_'))`. */
  function WordColumns(headers: seq<string>): (cols: seq<string>)
    ensures forall k :: 0 <= k < |cols| ==> IsWordColumn(cols[k]) && cols[k] in headers
    ensures forall h :: h in headers && IsWordColumn(h) ==> h in cols
  {
    Filter(headers, IsWordColumn)
  }

  /** `column.replace('word_', '')`. */
  function LanguageOf(column: string): string {
    ReplaceFirst(column, "word_", "")
  }

  /** On a word column the replacement strips the prefix, and the column is `word_` + language. */
  lemma LanguageOfColumn(column: string)
    requires IsWordColumn(column)
    ensures LanguageOf(column) == column[5..]
    ensures column == "word_" + LanguageOf(column)
  {
    assert column == column[..5] + column[5..];
  }

  /** `word_` + language is a word column naming that language. */
  lemma ColumnOfLanguage(lang: string)
    ensures IsWordColumn("word_" + lang)
    ensures LanguageOf("word_" + lang) == lang
  {
    var c := "word_" + lang;
    assert c[..5] == "word_";
    assert c[5..] == lang;
  }

  /**
   * The `words` object built by the `forEach` over the word columns: each
   * column with non-empty trimmed text sets its language to that text.
   */
  function WordsOf(r: Record, cols: seq<string>): Words {
    if cols == [] then []
    else
      var words := WordsOf(r, cols[..|cols| - 1]);
      var column := cols[|cols| - 1];
      var text := Text(r, column);
      if text != "" then Put(words, LanguageOf(column), text) else words
  }

  /**
   * The `words` object holds exactly the languages whose column has
   * non-empty trimmed text, each mapped to that text, every key once.
   */
  lemma {:induction false} WordsOfSpec(r: Record, cols: seq<string>)
    requires forall k :: 0 <= k < |cols| ==> IsWordColumn(cols[k])
    ensures UniqueKeys(WordsOf(r, cols))
    ensures forall lang :: (Get(WordsOf(r, cols), lang) ==
      if "word_" + lang in cols && Text(r, "word_" + lang) != "" then Some(Text(r, "word_" + lang)) else None)
  {
    if cols != [] {
      var init := cols[..|cols| - 1];
      var column := cols[|cols| - 1];
      assert cols == init + [column];
      WordsOfSpec(r, init);
      LanguageOfColumn(column);
      forall lang
        ensures Get(WordsOf(r, cols), lang) ==
          (if "word_" + lang in cols && Text(r, "word_" + lang) != "" then Some(Text(r, "word_" + lang)) else None)
      {
        assert ("word_" + lang in cols) <==> ("word_" + lang in init || "word_" + lang == column);
        ColumnOfLanguage(lang);
      }
    }
  }

  /**
   * The column loop of `validateAndConvertRowToWordRow`, with its
   * `hasAtLeastTwoWords` flag raised once two keys are present.
   */
  method CollectWords(r: Record, cols: seq<string>) returns (words: Words, hasAtLeastTwoWords: bool)
    ensures words == WordsOf(r, cols)
    ensures hasAtLeastTwoWords <==> |words| >= 2
  {
    words := [];
    hasAtLeastTwoWords := false;
    for k := 0 to |cols|
      invariant words == WordsOf(r, cols[..k])
      invariant hasAtLeastTwoWords <==> |words| >= 2
    {
      assert cols[..k + 1][..k] == cols[..k];
      var text := Text(r, cols[k]);
      if text != "" {
        var language := LanguageOf(cols[k]);
        words := Put(words, language, text);
        if |Keys(words)| >= 2 {
          hasAtLeastTwoWords := true;
        }
      }
    }
    assert cols[..|cols|] == cols;
  }

  // ---------------------------------------------------------------------
  // Multi-language rows: parseCsvToWordRows
  // ---------------------------------------------------------------------

  const TooFewColumns: string := "At least 2 language columns (word_*) are required"
  const TooFewWords: string := "At least 2 languages must have text"

  /**
   * `validateAndConvertRowToWordRow`: the row, or the message it throws (its
   * errors joined by `; `, the date error first).
   */
  function ValidateRowToWordRow(parseInt: IntParser, parseDate: DateParser, r: Record,
                                cols: seq<string>, freshId: string): Result<WordRow, string>
  {
    var words := WordsOf(r, cols);
    var errors := DateErrors(parseDate, r) + (if |words| >= 2 then [] else [TooFewWords]);
    if errors != [] then Err(Join(errors, "; "))
    else Ok(WordRow(
      RowId(r, freshId), words,
      IntField(parseInt, r, "times"), IntField(parseInt, r, "errors"),
      Optional(r, "last_review"), IntField(parseInt, r, "spell_errors"),
      Optional(r, "notes"), Some(IntField(parseInt, r, "stars")), map[]))
  }

  /**
   * A row is refused exactly for an unparseable date or fewer than two
   * languages with text, with those messages in that order; an accepted row
   * carries the record's fields, its words, and empty progress.
   */
  lemma ValidateRowToWordRowSpec(parseInt: IntParser, parseDate: DateParser, r: Record,
                                 cols: seq<string>, freshId: string)
    ensures var res := ValidateRowToWordRow(parseInt, parseDate, r, cols, freshId);
      var badDate := Optional(r, "last_review").Some? && parseDate(Text(r, "last_review")).None?;
      var fewWords := |WordsOf(r, cols)| < 2;
      var dateMessage := "Invalid last_review date format: " + Text(r, "last_review");
      && (res.Err? <==> badDate || fewWords)
      && (badDate && fewWords ==> res == Err(dateMessage + "; " + TooFewWords))
      && (badDate && !fewWords ==> res == Err(dateMessage))
      && (!badDate && fewWords ==> res == Err(TooFewWords))
      && (res.Ok? ==>
        && res.value.words == WordsOf(r, cols)
        && res.value.id == RowId(r, freshId)
        && res.value.times == IntField(parseInt, r, "times")
        && res.value.errors == IntField(parseInt, r, "errors")
        && res.value.spellErrors == IntField(parseInt, r, "spell_errors")
        && res.value.stars == Some(IntField(parseInt, r, "stars"))
        && res.value.lastReview == Optional(r, "last_review")
        && res.value.notes == Optional(r, "notes")
        && res.value.progress == map[])
  {
    var dateErrors := DateErrors(parseDate, r);
    if dateErrors != [] && |WordsOf(r, cols)| < 2 {
      JoinPair(dateErrors[0], TooFewWords, "; ");
      assert dateErrors + [TooFewWords] == [dateErrors[0], TooFewWords];
    }
  }

  /**
   * What the `forEach` over the data rows does with the validators'
   * outcomes: keeps the accepted values in order and turns each refusal of
   * data row `i` into `Row {i + 1}: {message}`.
   */
  function Tally<T>(outcomes: seq<Result<T, string>>): (valuesAndErrors: (seq<T>, seq<string>))
    ensures |valuesAndErrors.0| + |valuesAndErrors.1| == |outcomes|
  {
    if outcomes == [] then ([], [])
    else
      var index := |outcomes| - 1;
      var (values, errors) := Tally(outcomes[..index]);
      match outcomes[index]
      case Ok(v) => (values + [v], errors)
      case Err(message) => (values, errors + [RowMessage(index, message)])
  }

  /** The positions of the accepted outcomes (`ok`) or of the refused ones (`!ok`), in increasing order. */
  function Where<T>(outcomes: seq<Result<T, string>>, ok: bool): (r: seq<nat>)
    ensures Increasing(r)
    ensures forall k :: 0 <= k < |r| ==> r[k] < |outcomes| && outcomes[r[k]].Ok? == ok
    ensures forall i :: 0 <= i < |outcomes| && outcomes[i].Ok? == ok ==> i in r
  {
    if outcomes == [] then []
    else
      var n := |outcomes| - 1;
      var rest := Where(outcomes[..n], ok);
      assert forall i :: 0 <= i < n ==> outcomes[..n][i] == outcomes[i];
      if outcomes[n].Ok? == ok then
        assert Increasing(rest + [n]) by {
          forall k, l | 0 <= k < l < |rest| + 1 ensures (rest + [n])[k] < (rest + [n])[l] {
            if l < |rest| {
              assert (rest + [n])[k] == rest[k] && (rest + [n])[l] == rest[l];
            } else {
              assert (rest + [n])[k] == rest[k];
            }
          }
        }
        rest + [n]
      else rest
  }

  /** The accepted values, in row order. */
  function OkValues<T>(outcomes: seq<Result<T, string>>): (values: seq<T>)
    ensures |values| == |Where(outcomes, true)|
    ensures forall k :: 0 <= k < |values| ==> values[k] == outcomes[Where(outcomes, true)[k]].value
  {
    var at := Where(outcomes, true);
    seq(|at|, k requires 0 <= k < |at| => outcomes[at[k]].value)
  }

  /** `Row {i + 1}: {message}` for each refused row `i`, in row order. */
  function ErrMessages<T>(outcomes: seq<Result<T, string>>): (errors: seq<string>)
    ensures |errors| == |Where(outcomes, false)|
    ensures forall k :: 0 <= k < |errors| ==>
      errors[k] == RowMessage(Where(outcomes, false)[k], outcomes[Where(outcomes, false)[k]].error)
  {
    var at := Where(outcomes, false);
    seq(|at|, k requires 0 <= k < |at| => RowMessage(at[k], outcomes[at[k]].error))
  }

  /** One more outcome adds its value when it is an acceptance. */
  lemma OkValuesSnoc<T>(outcomes: seq<Result<T, string>>)
    requires outcomes != []
    ensures var n := |outcomes| - 1;
      && (outcomes[n].Ok? ==> OkValues(outcomes) == OkValues(outcomes[..n]) + [outcomes[n].value])
      && (outcomes[n].Err? ==> OkValues(outcomes) == OkValues(outcomes[..n]))
  {
    var n := |outcomes| - 1;
    var init := outcomes[..n];
    var at, at' := Where(outcomes, true), Where(init, true);
    assert at == at' + (if outcomes[n].Ok? then [n] else []);
    forall k | 0 <= k < |at'| ensures OkValues(outcomes)[k] == OkValues(init)[k] {
      assert at[k] == at'[k] && at'[k] < n;
      assert init[at'[k]] == outcomes[at'[k]];
    }
  }

  /** One more outcome adds its message when it is a refusal. */
  lemma ErrMessagesSnoc<T>(outcomes: seq<Result<T, string>>)
    requires outcomes != []
    ensures var n := |outcomes| - 1;
      && (outcomes[n].Err? ==> ErrMessages(outcomes) == ErrMessages(outcomes[..n]) + [RowMessage(n, outcomes[n].error)])
      && (outcomes[n].Ok? ==> ErrMessages(outcomes) == ErrMessages(outcomes[..n]))
  {
    var n := |outcomes| - 1;
    var init := outcomes[..n];
    var at, at' := Where(outcomes, false), Where(init, false);
    assert at == at' + (if outcomes[n].Err? then [n] else []);
    forall k | 0 <= k < |at'| ensures ErrMessages(outcomes)[k] == ErrMessages(init)[k] {
      assert at[k] == at'[k] && at'[k] < n;
      assert init[at'[k]] == outcomes[at'[k]];
    }
  }

  /**
   * The `forEach` over the outcomes keeps every accepted value and one
   * message per refused row, each in row order: exactly one of the two for
   * every data row.
   */
  lemma {:induction false} TallySpec<T>(outcomes: seq<Result<T, string>>)
    ensures Tally(outcomes) == (OkValues(outcomes), ErrMessages(outcomes))
  {
    if outcomes != [] {
      var n := |outcomes| - 1;
      var init := outcomes[..n];
      TallySpec(init);
      OkValuesSnoc(outcomes);
      ErrMessagesSnoc(outcomes);
      match outcomes[n]
      case Ok(v) =>
        assert Tally(outcomes) == (Tally(init).0 + [v], Tally(init).1);
      case Err(message) =>
        assert Tally(outcomes) == (Tally(init).0, Tally(init).1 + [RowMessage(n, message)]);
    }
  }

  /** With no refusal, the values are the outcomes' values, in order, and there is no error. */
  lemma {:induction false} TallyAllOk<T>(outcomes: seq<Result<T, string>>)
    requires forall i :: 0 <= i < |outcomes| ==> outcomes[i].Ok?
    ensures Tally(outcomes).1 == [] && |Tally(outcomes).0| == |outcomes|
    ensures forall i :: 0 <= i < |outcomes| ==> Tally(outcomes).0[i] == outcomes[i].value
  {
    if outcomes != [] {
      var init := outcomes[..|outcomes| - 1];
      TallyAllOk(init);
      forall i | 0 <= i < |init|
        ensures init[i] == outcomes[i]
      {
      }
    }
  }

  /**
   * The outcome of each data row under a validator, which also receives the
   * 0-based row index (the generated id of row `i` is drawn for that row).
   */
  function Outcomes<T>(data: seq<Record>, validate: (nat, Record) -> Result<T, string>): (r: seq<Result<T, string>>)
    ensures |r| == |data|
    ensures forall i :: 0 <= i < |data| ==> r[i] == validate(i, data[i])
  {
    seq(|data|, i requires 0 <= i < |data| => validate(i, data[i]))
  }

  /**
   * The `forEach` every parser runs over the data rows: push what the
   * validator returns, or push `Row {index + 1}: {message}` for what it throws.
   */
  method TallyRows<T>(data: seq<Record>, validate: (nat, Record) -> Result<T, string>)
    returns (values: seq<T>, errors: seq<string>)
    ensures (values, errors) == Tally(Outcomes(data, validate))
  {
    ghost var outcomes := Outcomes(data, validate);
    values := [];
    errors := [];
    for index := 0 to |data|
      invariant (values, errors) == Tally(outcomes[..index])
    {
      assert outcomes[..index + 1][..index] == outcomes[..index];
      match validate(index, data[index])
      case Ok(v) =>
        values := values + [v];
      case Err(message) =>
        errors := errors + [RowMessage(index, message)];
    }
    assert outcomes[..|data|] == outcomes;
  }

  /** The same loop for a validator that returns several values per row, pushed one after another. */
  method TallyRowGroups<T>(data: seq<Record>, validate: (nat, Record) -> Result<seq<T>, string>)
    returns (values: seq<T>, errors: seq<string>)
    ensures values == Flatten(Tally(Outcomes(data, validate)).0)
    ensures errors == Tally(Outcomes(data, validate)).1
  {
    ghost var outcomes := Outcomes(data, validate);
    values := [];
    errors := [];
    for index := 0 to |data|
      invariant values == Flatten(Tally(outcomes[..index]).0)
      invariant errors == Tally(outcomes[..index]).1
    {
      assert outcomes[..index + 1][..index] == outcomes[..index];
      match validate(index, data[index])
      case Ok(group) =>
        values := values + group;
      case Err(message) =>
        errors := errors + [RowMessage(index, message)];
    }
    assert outcomes[..|data|] == outcomes;
  }

  /** `validateAndConvertRowToWordRow` for data row `i`, with `freshId(i)` as its generated id. */
  function WordRowValidator(parseInt: IntParser, parseDate: DateParser, freshId: nat -> string,
                            cols: seq<string>): (nat, Record) -> Result<WordRow, string>
  {
    (i: nat, r: Record) => ValidateRowToWordRow(parseInt, parseDate, r, cols, freshId(i))
  }

  /** `parseCsvToWordRows`, from the lexer's output. */
  function ParseCsvToWordRows(parseInt: IntParser, parseDate: DateParser, freshId: nat -> string,
                              parsed: Parsed): CsvResult<WordRow>
  {
    var errors := LexMessages(parsed.errors);
    var headers := Headers(parsed);
    var wordColumns := WordColumns(headers);
    if |wordColumns| < 2 then CsvResult([], errors + [TooFewColumns], Meta(headers, 0, 0))
    else
      var (rows, rowErrors) := Tally(Outcomes(parsed.data, WordRowValidator(parseInt, parseDate, freshId, wordColumns)));
      CsvResult(rows, errors + rowErrors, Meta(headers, |parsed.data|, |rows|))
  }

  /** `parseCsvToWordRows`, step by step. */
  method ParseWordRows(parseInt: IntParser, parseDate: DateParser, freshId: nat -> string, parsed: Parsed)
    returns (result: CsvResult<WordRow>)
    ensures result == ParseCsvToWordRows(parseInt, parseDate, freshId, parsed)
  {
    var errors := LexMessages(parsed.errors);
    var headers := Headers(parsed);
    var wordColumns := WordColumns(headers);
    if |wordColumns| < 2 {
      errors := errors + [TooFewColumns];
      return CsvResult([], errors, Meta(headers, 0, 0));
    }
    var validRows, rowErrors := TallyRows(parsed.data, WordRowValidator(parseInt, parseDate, freshId, wordColumns));
    result := CsvResult(validRows, errors + rowErrors, Meta(headers, |parsed.data|, |validRows|));
  }

  /**
   * Fewer than two `word_` headers (counted on the raw headers, validity of
   * the tag aside) gives no data and the column error after the lexer's;
   * otherwise the data are the accepted rows and the errors after the
   * lexer's are one message per refused row, both in row order.
   */
  lemma ParseCsvToWordRowsSpec(parseInt: IntParser, parseDate: DateParser, freshId: nat -> string, parsed: Parsed)
    ensures var result := ParseCsvToWordRows(parseInt, parseDate, freshId, parsed);
      var outcomes := Outcomes(parsed.data, WordRowValidator(parseInt, parseDate, freshId, WordColumns(Headers(parsed))));
      && result.errors[..|parsed.errors|] == LexMessages(parsed.errors)
      && result.meta.fields == Headers(parsed)
      && (|WordColumns(Headers(parsed))| < 2 ==>
            result.data == [] && result.errors == LexMessages(parsed.errors) + [TooFewColumns])
      && (|WordColumns(Headers(parsed))| >= 2 ==>
            result.data == OkValues(outcomes)
            && result.errors == LexMessages(parsed.errors) + ErrMessages(outcomes)
            && |result.data| + |result.errors| == |parsed.errors| + |parsed.data|
            && result.meta.totalRows == |parsed.data| && result.meta.validRows == |result.data|)
  {
    var lex := LexMessages(parsed.errors);
    if |WordColumns(Headers(parsed))| < 2 {
      assert (lex + [TooFewColumns])[..|lex|] == lex;
    } else {
      var outcomes := Outcomes(parsed.data, WordRowValidator(parseInt, parseDate, freshId, WordColumns(Headers(parsed))));
      TallySpec(outcomes);
      var rest := Tally(outcomes).1;
      assert (lex + rest)[..|lex|] == lex;
    }
  }

  /** Every imported row lists each of its languages once. */
  lemma ParseCsvToWordRowsWellFormed(parseInt: IntParser, parseDate: DateParser, freshId: nat -> string, parsed: Parsed)
    ensures var result := ParseCsvToWordRows(parseInt, parseDate, freshId, parsed);
      forall k :: 0 <= k < |result.data| ==> WellFormedRow(result.data[k])
  {
    var cols := WordColumns(Headers(parsed));
    if |cols| >= 2 {
      var outcomes := Outcomes(parsed.data, WordRowValidator(parseInt, parseDate, freshId, cols));
      ParseCsvToWordRowsSpec(parseInt, parseDate, freshId, parsed);
      var at := Where(outcomes, true);
      forall k | 0 <= k < |at|
        ensures WellFormedRow(OkValues(outcomes)[k])
      {
        var i := at[k];
        ValidateRowToWordRowSpec(parseInt, parseDate, parsed.data[i], cols, freshId(i));
        WordsOfSpec(parsed.data[i], cols);
      }
    }
  }

  /** When every record validates, the import is exactly the validated rows, in order. */
  lemma ParseCsvToWordRowsAllValid(parseInt: IntParser, parseDate: DateParser, freshId: nat -> string, parsed: Parsed)
    requires |WordColumns(Headers(parsed))| >= 2
    requires forall i :: 0 <= i < |parsed.data| ==>
      ValidateRowToWordRow(parseInt, parseDate, parsed.data[i], WordColumns(Headers(parsed)), freshId(i)).Ok?
    ensures var result := ParseCsvToWordRows(parseInt, parseDate, freshId, parsed);
      && result.errors == LexMessages(parsed.errors)
      && |result.data| == |parsed.data|
      && forall i :: 0 <= i < |parsed.data| ==>
           (result.data[i] == ValidateRowToWordRow(parseInt, parseDate, parsed.data[i], WordColumns(Headers(parsed)), freshId(i)).value)
  {
    var outcomes := Outcomes(parsed.data, WordRowValidator(parseInt, parseDate, freshId, WordColumns(Headers(parsed))));
    TallyAllOk(outcomes);
    assert ParseCsvToWordRows(parseInt, parseDate, freshId, parsed).data == Tally(outcomes).0;
    assert LexMessages(parsed.errors) + [] == LexMessages(parsed.errors);
  }

  // ---------------------------------------------------------------------
  // Header queries
  // ---------------------------------------------------------------------

  /** The language after `word_` is a tag, or becomes one with `-US` appended. */
  predicate IsLanguageColumn(lang: string) {
    IsValidLanguageTag(lang) || IsValidLanguageTag(lang + "-US")
  }

  function Languages(cols: seq<string>): (langs: seq<string>)
    ensures |langs| == |cols| && forall k :: 0 <= k < |cols| ==> langs[k] == LanguageOf(cols[k])
  {
    seq(|cols|, k requires 0 <= k < |cols| => LanguageOf(cols[k]))
  }

  /** `extractLanguagesFromHeaders(headers)`: filter, strip `word_`, keep those that pass the tag test. */
  function ExtractLanguagesFromHeaders(headers: seq<string>): seq<string> {
    Filter(Languages(WordColumns(headers)), IsLanguageColumn)
  }

  /**
   * A language is extracted exactly when `word_` + it is a header and it
   * passes the tag test (directly or with `-US`).
   */
  lemma ExtractLanguagesSpec(headers: seq<string>, lang: string)
    ensures lang in ExtractLanguagesFromHeaders(headers) <==> ("word_" + lang) in headers && IsLanguageColumn(lang)
  {
    var cols := WordColumns(headers);
    var langs := Languages(cols);
    ColumnOfLanguage(lang);
    if lang in ExtractLanguagesFromHeaders(headers) {
      var k :| 0 <= k < |langs| && langs[k] == lang;
      LanguageOfColumn(cols[k]);
    }
    if ("word_" + lang) in headers && IsLanguageColumn(lang) {
      var k :| 0 <= k < |cols| && cols[k] == "word_" + lang;
      assert langs[k] == lang;
    }
  }

  /** `LANGUAGE_NAMES[code] || LANGUAGE_NAMES[code + '-US'] || code`. */
  function MappedName(code: string): (name: string)
    ensures name != ""  || code == ""
  {
    var direct := LanguageName(code);
    var us := LanguageName(code + "-US");
    if direct.Some? && direct.value != "" then direct.value
    else if us.Some? && us.value != "" then us.value
    else code
  }

  /** `createLanguageMapping(headers)`: word column -> display name, in header order. */
  function LanguageMapping(headers: seq<string>): seq<(string, string)> {
    if headers == [] then []
    else
      var mapping := LanguageMapping(headers[..|headers| - 1]);
      var header := headers[|headers| - 1];
      if IsWordColumn(header) then Put(mapping, header, MappedName(LanguageOf(header))) else mapping
  }

  /** Exactly the word columns are mapped, each to the display name of its language. */
  lemma {:induction false} LanguageMappingSpec(headers: seq<string>)
    ensures UniqueKeys(LanguageMapping(headers))
    ensures forall h :: (Get(LanguageMapping(headers), h) ==
      if h in headers && IsWordColumn(h) then Some(MappedName(LanguageOf(h))) else None)
  {
    if headers != [] {
      var init := headers[..|headers| - 1];
      assert headers == init + [headers[|headers| - 1]];
      LanguageMappingSpec(init);
    }
  }

  /** The `filter(...).forEach(...)` of `createLanguageMapping`. */
  method CreateLanguageMapping(headers: seq<string>) returns (mapping: seq<(string, string)>)
    ensures mapping == LanguageMapping(headers)
  {
    mapping := [];
    for k := 0 to |headers|
      invariant mapping == LanguageMapping(headers[..k])
    {
      assert headers[..k + 1][..k] == headers[..k];
      var header := headers[k];
      if IsWordColumn(header) {
        var langCode := LanguageOf(header);
        mapping := Put(mapping, header, MappedName(langCode));
      }
    }
    assert headers[..|headers|] == headers;
  }

  datatype CsvFormat = Legacy | New | Unknown

  datatype FormatInfo = FormatInfo(format: CsvFormat, availableLanguages: seq<string>, headers: seq<string>)

  /** `detectCsvFormat`, from the header line the lexer read. */
  function DetectCsvFormat(headers: seq<string>): (info: FormatInfo)
    ensures info.headers == headers
    ensures info.format == Legacy <==> "lang_src" in headers && "lang_tgt" in headers
    ensures info.format == New <==> !("lang_src" in headers && "lang_tgt" in headers) && |WordColumns(headers)| >= 2
    ensures info.format == New ==> info.availableLanguages == ExtractLanguagesFromHeaders(headers)
    ensures info.format != New ==> info.availableLanguages == []
  {
    if "lang_src" in headers && "lang_tgt" in headers then FormatInfo(Legacy, [], headers)
    else if |WordColumns(headers)| >= 2 then FormatInfo(New, ExtractLanguagesFromHeaders(headers), headers)
    else FormatInfo(Unknown, [], headers)
  }
}
