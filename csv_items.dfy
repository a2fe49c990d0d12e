/**
 * The pairwise import formats of `csv.ts`, whose result is one `WordItem`
 * per source/target pair: the legacy format with `lang_src`/`text_src`
 * columns, the configured format that reads one pair of `word_` columns, and
 * the multi-language format that expands every record over the display
 * languages; and the record mapping of `convertWordsToCsv`.
 */
module CsvItems {
  import opened Wrappers
  import opened Seqs
  import opened Strings
  import opened Types
  import opened Normalize
  import opened Csv
  import opened WordPairs

  /** `LanguageConfig`. */
  datatype LanguageConfig = LanguageConfig(
    sourceLanguage: string,
    targetLanguage: string,
    availableLanguages: seq<string>,
    displayLanguages: seq<string>)

  /** The column of a language: `word_${lang}`. */
  function WordColumn(lang: string): string {
    "word_" + lang
  }

  /**
   * The fields every validator reads the same way: the numbers through
   * `parseInt(…) || 0` (and `stars` through `isNaN(…) ? 0 : …`), the date and
   * the notes trimmed or `undefined`; languages and texts are filled in later.
   */
  function ItemStats(parseInt: IntParser, r: Record, id: string): WordItem {
    WordItem(id, "", "", "", "",
             IntField(parseInt, r, "times"), IntField(parseInt, r, "errors"),
             Optional(r, "last_review"), IntField(parseInt, r, "spell_errors"),
             Optional(r, "notes"), Some(IntField(parseInt, r, "stars")))
  }

  /** The date error joined on its own, as every validator throws it. */
  lemma JoinDateError(parseDate: DateParser, r: Record)
    requires DateErrors(parseDate, r) != []
    ensures Join(DateErrors(parseDate, r), "; ") == "Invalid last_review date format: " + Text(r, "last_review")
  {
  }

  // ---------------------------------------------------------------------
  // Header checks
  // ---------------------------------------------------------------------

  const LegacyHeaders: seq<string> :=
    ["id", "lang_src", "lang_tgt", "text_src", "text_tgt", "times", "errors", "last_review", "spell_errors", "notes"]

  const ConfigHeaders: seq<string> := ["id", "times", "errors", "last_review", "spell_errors", "notes"]

  /** `expectedHeaders.filter(header => !actualHeaders.includes(header))`. */
  function MissingHeaders(expected: seq<string>, actual: seq<string>): seq<string> {
    if expected == [] then []
    else (if expected[0] in actual then [] else [expected[0]]) + MissingHeaders(expected[1..], actual)
  }

  /** The missing headers are exactly the expected ones that are absent. */
  lemma {:induction false} MissingHeadersSpec(expected: seq<string>, actual: seq<string>)
    ensures forall h :: h in MissingHeaders(expected, actual) <==> h in expected && h !in actual
  {
    if expected != [] {
      MissingHeadersSpec(expected[1..], actual);
      assert expected == [expected[0]] + expected[1..];
    }
  }

  /** `Missing required headers: a, b, …`, or nothing when every expected header is there. */
  function MissingHeadersErrors(expected: seq<string>, actual: seq<string>): (errs: seq<string>)
    ensures |errs| <= 1
  {
    var missing := MissingHeaders(expected, actual);
    if missing != [] then ["Missing required headers: " + Join(missing, ", ")] else []
  }

  /** The report is absent exactly when every expected header is present, and lists the missing ones otherwise. */
  lemma MissingHeadersErrorsSpec(expected: seq<string>, actual: seq<string>)
    ensures MissingHeadersErrors(expected, actual) == [] <==> forall h :: h in expected ==> h in actual
    ensures MissingHeadersErrors(expected, actual) != [] ==>
      MissingHeadersErrors(expected, actual)[0] == "Missing required headers: " + Join(MissingHeaders(expected, actual), ", ")
  {
    var missing := MissingHeaders(expected, actual);
    MissingHeadersSpec(expected, actual);
    if missing == [] {
      forall h | h in expected ensures h in actual {
        assert h in missing <==> h !in actual;
      }
    } else {
      assert missing[0] in missing;
    }
  }

  // ---------------------------------------------------------------------
  // Legacy format: parseCsvToWords / validateAndConvertRow
  // ---------------------------------------------------------------------

  /** The four columns the legacy format requires. */
  datatype LegacyField = LangSrc | LangTgt | TextSrc | TextTgt

  /** The column a legacy field is read from. */
  function ColumnName(f: LegacyField): string {
    match f
    case LangSrc => "lang_src"
    case LangTgt => "lang_tgt"
    case TextSrc => "text_src"
    case TextTgt => "text_tgt"
  }

  /** The trimmed text of a legacy field. */
  function FieldText(r: Record, f: LegacyField): string {
    Text(r, ColumnName(f))
  }

  /** One complaint of `validateAndConvertRow`; `ProblemMessage` gives the text it pushes. */
  datatype LegacyProblem =
    | Required(field: LegacyField)
    | InvalidTag(field: LegacyField, tag: string)
    | InvalidDate(date: string)

  function ProblemMessage(p: LegacyProblem): string {
    match p
    case Required(f) => ColumnName(f) + " is required"
    case InvalidTag(f, tag) => "Invalid " + ColumnName(f) + " format: " + tag
    case InvalidDate(d) => "Invalid last_review date format: " + d
  }

  /** The complaint `p` when `c` holds, and none otherwise. */
  function When(c: bool, p: LegacyProblem): (s: seq<LegacyProblem>)
    ensures s == [] <==> !c
    ensures forall x :: x in s <==> c && x == p
  {
    if c then [p] else []
  }

  /** A legacy record is acceptable: four non-empty fields, valid tags and a readable date. */
  predicate LegacyValid(parseDate: DateParser, r: Record) {
    && FieldText(r, LangSrc) != "" && FieldText(r, LangTgt) != ""
    && FieldText(r, TextSrc) != "" && FieldText(r, TextTgt) != ""
    && IsValidLanguageTag(FieldText(r, LangSrc)) && IsValidLanguageTag(FieldText(r, LangTgt))
    && !(Optional(r, "last_review").Some? && parseDate(Text(r, "last_review")).None?)
  }

  /** The "… is required" complaints for the fields `fs`, in their order. */
  function RequiredOf(r: Record, fs: seq<LegacyField>): (ps: seq<LegacyProblem>)
    ensures ps == [] <==> forall f :: f in fs ==> FieldText(r, f) != ""
    ensures forall f :: Required(f) in ps <==> f in fs && FieldText(r, f) == ""
    ensures forall p :: p in ps ==> p.Required?
  {
    if fs == [] then []
    else
      assert forall f :: f in fs <==> f == fs[0] || f in fs[1..];
      When(FieldText(r, fs[0]) == "", Required(fs[0])) + RequiredOf(r, fs[1..])
  }

  /** The required fields in the order `validateAndConvertRow` checks them. */
  const LegacyFields: seq<LegacyField> := [LangSrc, LangTgt, TextSrc, TextTgt]

  lemma AllLegacyFields()
    ensures forall f :: f in LegacyFields
  {
    forall f: LegacyField ensures f in LegacyFields {
      match f
      case LangSrc => assert LegacyFields[0] == f;
      case LangTgt => assert LegacyFields[1] == f;
      case TextSrc => assert LegacyFields[2] == f;
      case TextTgt => assert LegacyFields[3] == f;
    }
  }

  /** The "… is required" complaints, in the order `validateAndConvertRow` checks the fields. */
  function RequiredProblems(r: Record): (ps: seq<LegacyProblem>)
    ensures ps == [] <==>
      FieldText(r, LangSrc) != "" && FieldText(r, LangTgt) != "" && FieldText(r, TextSrc) != "" && FieldText(r, TextTgt) != ""
    ensures forall f :: Required(f) in ps <==> FieldText(r, f) == ""
    ensures forall p :: p in ps ==> p.Required?
  {
    AllLegacyFields();
    RequiredOf(r, LegacyFields)
  }

  /** The tag-format complaints: only a present tag that the grammar refuses is reported. */
  function TagProblems(r: Record): (ps: seq<LegacyProblem>)
    ensures ps == [] <==>
      (FieldText(r, LangSrc) == "" || IsValidLanguageTag(FieldText(r, LangSrc)))
      && (FieldText(r, LangTgt) == "" || IsValidLanguageTag(FieldText(r, LangTgt)))
    ensures forall f, tag :: InvalidTag(f, tag) in ps <==>
      (f == LangSrc || f == LangTgt) && tag == FieldText(r, f) && tag != "" && !IsValidLanguageTag(tag)
    ensures forall p :: p in ps ==> p.InvalidTag?
  {
    var langSrc := FieldText(r, LangSrc);
    var langTgt := FieldText(r, LangTgt);
    When(langSrc != "" && !IsValidLanguageTag(langSrc), InvalidTag(LangSrc, langSrc))
    + When(langTgt != "" && !IsValidLanguageTag(langTgt), InvalidTag(LangTgt, langTgt))
  }

  /** The date complaint, for a present date that does not parse. */
  function DateProblems(parseDate: DateParser, r: Record): (ps: seq<LegacyProblem>)
    ensures ps == [] <==> !(Optional(r, "last_review").Some? && parseDate(Text(r, "last_review")).None?)
    ensures forall d :: InvalidDate(d) in ps <==> Optional(r, "last_review") == Some(d) && parseDate(d).None?
    ensures forall p :: p in ps ==> p.InvalidDate?
  {
    var lastReview := Optional(r, "last_review");
    When(lastReview.Some? && parseDate(lastReview.GetOr("")).None?, InvalidDate(lastReview.GetOr("")))
  }

  /**
   * The complaints of `validateAndConvertRow`, in the order it makes them: the
   * required fields, the tag formats, then the date.
   */
  function LegacyProblems(parseDate: DateParser, r: Record): (ps: seq<LegacyProblem>)
    ensures ps == [] <==> LegacyValid(parseDate, r)
    ensures forall f :: Required(f) in ps <==> FieldText(r, f) == ""
    ensures forall f, tag :: InvalidTag(f, tag) in ps <==>
      (f == LangSrc || f == LangTgt) && tag == FieldText(r, f) && tag != "" && !IsValidLanguageTag(tag)
    ensures forall d :: InvalidDate(d) in ps <==> Optional(r, "last_review") == Some(d) && parseDate(d).None?
  {
    RequiredProblems(r) + TagProblems(r) + DateProblems(parseDate, r)
  }

  /** The message of each complaint, in order. */
  function Messages(ps: seq<LegacyProblem>): (ms: seq<string>)
    ensures |ms| == |ps|
    ensures forall i :: 0 <= i < |ps| ==> ms[i] == ProblemMessage(ps[i])
  {
    seq(|ps|, i requires 0 <= i < |ps| => ProblemMessage(ps[i]))
  }

  /** The messages `validateAndConvertRow` collects, one per complaint. */
  function LegacyErrors(parseDate: DateParser, r: Record): (errs: seq<string>)
    ensures errs == [] <==> LegacyValid(parseDate, r)
  {
    Messages(LegacyProblems(parseDate, r))
  }

  /** `validateAndConvertRow`: the item, or the message it throws. */
  function ValidateRow(parseInt: IntParser, parseDate: DateParser, r: Record, freshId: string): Result<WordItem, string> {
    var errors := LegacyErrors(parseDate, r);
    if errors != [] then Err(Join(errors, "; "))
    else Ok(ItemStats(parseInt, r, RowId(r, freshId)).(
      langSrc := Text(r, "lang_src"), langTgt := Text(r, "lang_tgt"),
      textSrc := Text(r, "text_src"), textTgt := Text(r, "text_tgt")))
  }

  /**
   * A record is refused exactly when it is not acceptable, with its errors
   * joined by `; `; an accepted record gives the item with its trimmed
   * fields, the given or generated id and the numeric defaults.
   */
  lemma ValidateRowSpec(parseInt: IntParser, parseDate: DateParser, r: Record, freshId: string)
    ensures var res := ValidateRow(parseInt, parseDate, r, freshId);
      && (res.Err? <==> !LegacyValid(parseDate, r))
      && (res.Err? ==> res.error == Join(LegacyErrors(parseDate, r), "; "))
      && (res.Ok? ==>
        && res.value.id == RowId(r, freshId)
        && res.value.langSrc == Text(r, "lang_src") && res.value.langTgt == Text(r, "lang_tgt")
        && res.value.textSrc == Text(r, "text_src") && res.value.textTgt == Text(r, "text_tgt")
        && IsValidLanguageTag(res.value.langSrc) && IsValidLanguageTag(res.value.langTgt)
        && res.value.times == IntField(parseInt, r, "times")
        && res.value.errors == IntField(parseInt, r, "errors")
        && res.value.spellErrors == IntField(parseInt, r, "spell_errors")
        && res.value.stars == Some(IntField(parseInt, r, "stars"))
        && res.value.lastReview == Optional(r, "last_review")
        && res.value.notes == Optional(r, "notes"))
  {
  }

  /** `validateAndConvertRow` for data row `i`, with `freshId(i)` as its generated id. */
  function LegacyValidator(parseInt: IntParser, parseDate: DateParser, freshId: nat -> string): (nat, Record) -> Result<WordItem, string> {
    (i: nat, r: Record) => ValidateRow(parseInt, parseDate, r, freshId(i))
  }

  /** `parseCsvToWords`: the header report does not stop the rows from being read. */
  function ParseCsvToWords(parseInt: IntParser, parseDate: DateParser, freshId: nat -> string,
                           parsed: Parsed): CsvResult<WordItem>
  {
    var headers := Headers(parsed);
    var (items, rowErrors) := Tally(Outcomes(parsed.data, LegacyValidator(parseInt, parseDate, freshId)));
    CsvResult(items, LexMessages(parsed.errors) + MissingHeadersErrors(LegacyHeaders, headers) + rowErrors,
              Meta(headers, |parsed.data|, |items|))
  }

  /** `parseCsvToWords`, step by step. */
  method ParseWords(parseInt: IntParser, parseDate: DateParser, freshId: nat -> string, parsed: Parsed)
    returns (result: CsvResult<WordItem>)
    ensures result == ParseCsvToWords(parseInt, parseDate, freshId, parsed)
  {
    var headers := Headers(parsed);
    var errors := LexMessages(parsed.errors) + MissingHeadersErrors(LegacyHeaders, headers);
    var validWords, rowErrors := TallyRows(parsed.data, LegacyValidator(parseInt, parseDate, freshId));
    result := CsvResult(validWords, errors + rowErrors, Meta(headers, |parsed.data|, |validWords|));
  }

  /**
   * The lexer's errors come first, then at most one header report, then one
   * message per refused row in row order; the data are the accepted items
   * in row order.
   */
  lemma ParseCsvToWordsSpec(parseInt: IntParser, parseDate: DateParser, freshId: nat -> string, parsed: Parsed)
    ensures var result := ParseCsvToWords(parseInt, parseDate, freshId, parsed);
      var lex := LexMessages(parsed.errors);
      var report := MissingHeadersErrors(LegacyHeaders, Headers(parsed));
      var outcomes := Outcomes(parsed.data, LegacyValidator(parseInt, parseDate, freshId));
      && result.errors[..|lex|] == lex
      && |report| <= 1
      && result.errors[|lex|..|lex| + |report|] == report
      && result.data == OkValues(outcomes)
      && result.errors == lex + report + ErrMessages(outcomes)
      && |result.data| + |result.errors| == |lex| + |report| + |parsed.data|
      && result.meta.totalRows == |parsed.data| && result.meta.validRows == |result.data|
  {
    var lex := LexMessages(parsed.errors);
    var report := MissingHeadersErrors(LegacyHeaders, Headers(parsed));
    var outcomes := Outcomes(parsed.data, LegacyValidator(parseInt, parseDate, freshId));
    TallySpec(outcomes);
    var rest := Tally(outcomes).1;
    assert (lex + report + rest)[..|lex|] == lex;
    assert (lex + report + rest)[|lex|..|lex| + |report|] == report;
  }

  // ---------------------------------------------------------------------
  // Configured format: parseCsvToWordsWithConfig / validateAndConvertRowWithConfig
  // ---------------------------------------------------------------------

  /** The errors `validateAndConvertRowWithConfig` collects, in order. */
  function ConfigErrors(parseDate: DateParser, r: Record, config: LanguageConfig): seq<string> {
    var sourceCol := WordColumn(config.sourceLanguage);
    var targetCol := WordColumn(config.targetLanguage);
    (if Text(r, sourceCol) == "" then [sourceCol + " is required"] else [])
    + (if Text(r, targetCol) == "" then [targetCol + " is required"] else [])
    + DateErrors(parseDate, r)
  }

  /** `validateAndConvertRowWithConfig`: the item of the configured pair, or the thrown message. */
  function ValidateRowWithConfig(parseInt: IntParser, parseDate: DateParser, r: Record,
                                 config: LanguageConfig, freshId: string): Result<WordItem, string> {
    var errors := ConfigErrors(parseDate, r, config);
    if errors != [] then Err(Join(errors, "; "))
    else Ok(ItemStats(parseInt, r, RowId(r, freshId)).(
      langSrc := config.sourceLanguage, langTgt := config.targetLanguage,
      textSrc := Text(r, WordColumn(config.sourceLanguage)),
      textTgt := Text(r, WordColumn(config.targetLanguage))))
  }

  /** A column message starts with `w`, a date message with `I`. */
  lemma ColumnNotDate(lang: string, date: string)
    ensures WordColumn(lang) + " is required" != "Invalid last_review date format: " + date
  {
    assert (WordColumn(lang) + " is required")[0] == 'w';
    assert ("Invalid last_review date format: " + date)[0] == 'I';
  }

  /**
   * A record is refused exactly when a configured column has no text or the
   * date is unreadable; the "… is required" message of a column appears
   * exactly when that column is empty; an accepted record carries the
   * configured languages and both texts, non-empty.
   */
  lemma ValidateRowWithConfigSpec(parseInt: IntParser, parseDate: DateParser, r: Record,
                                  config: LanguageConfig, freshId: string)
    ensures var res := ValidateRowWithConfig(parseInt, parseDate, r, config, freshId);
      var errs := ConfigErrors(parseDate, r, config);
      var sourceCol := WordColumn(config.sourceLanguage);
      var targetCol := WordColumn(config.targetLanguage);
      var badDate := Optional(r, "last_review").Some? && parseDate(Text(r, "last_review")).None?;
      && (res.Err? <==> Text(r, sourceCol) == "" || Text(r, targetCol) == "" || badDate)
      && (sourceCol + " is required" in errs <==> Text(r, sourceCol) == "")
      && (targetCol + " is required" in errs <==> Text(r, targetCol) == "")
      && (res.Err? ==> res.error == Join(errs, "; "))
      && (res.Ok? ==>
        && res.value.id == RowId(r, freshId)
        && res.value.langSrc == config.sourceLanguage && res.value.langTgt == config.targetLanguage
        && res.value.textSrc == Text(r, sourceCol) != "" && res.value.textTgt == Text(r, targetCol) != ""
        && res.value.stars == Some(IntField(parseInt, r, "stars")))
  {
    ConfigErrorsSpec(parseDate, r, config);
  }

  /** Each word column is reported exactly when it is empty; nothing is reported exactly when the record is acceptable. */
  lemma ConfigErrorsSpec(parseDate: DateParser, r: Record, config: LanguageConfig)
    ensures var errs := ConfigErrors(parseDate, r, config);
      var sourceCol := WordColumn(config.sourceLanguage);
      var targetCol := WordColumn(config.targetLanguage);
      var badDate := Optional(r, "last_review").Some? && parseDate(Text(r, "last_review")).None?;
      && (errs == [] <==> Text(r, sourceCol) != "" && Text(r, targetCol) != "" && !badDate)
      && (sourceCol + " is required" in errs <==> Text(r, sourceCol) == "")
      && (targetCol + " is required" in errs <==> Text(r, targetCol) == "")
  {
    var date := Text(r, "last_review");
    ColumnNotDate(config.sourceLanguage, date);
    ColumnNotDate(config.targetLanguage, date);
    var sourceCol := WordColumn(config.sourceLanguage);
    var targetCol := WordColumn(config.targetLanguage);
    if sourceCol + " is required" == targetCol + " is required" {
      assert sourceCol == (sourceCol + " is required")[..|sourceCol|];
      assert |sourceCol| == |targetCol|;
      assert targetCol == (targetCol + " is required")[..|targetCol|];
    }
  }

  /** The header report of the configured format: the two word columns, then the standard headers. */
  function ConfigHeaderErrors(headers: seq<string>, config: LanguageConfig): (errs: seq<string>)
    ensures |errs| <= 3
  {
    var sourceCol := WordColumn(config.sourceLanguage);
    var targetCol := WordColumn(config.targetLanguage);
    (if sourceCol !in headers then ["Missing required column: " + sourceCol] else [])
    + (if targetCol !in headers then ["Missing required column: " + targetCol] else [])
    + MissingHeadersErrors(ConfigHeaders, headers)
  }

  /** No header report exactly when both word columns and every standard header are present. */
  lemma ConfigHeaderErrorsSpec(headers: seq<string>, config: LanguageConfig)
    ensures ConfigHeaderErrors(headers, config) == [] <==>
      WordColumn(config.sourceLanguage) in headers && WordColumn(config.targetLanguage) in headers
      && forall h :: h in ConfigHeaders ==> h in headers
  {
    MissingHeadersErrorsSpec(ConfigHeaders, headers);
  }

  /** `validateAndConvertRowWithConfig` for data row `i`, with `freshId(i)` as its generated id. */
  function ConfigValidator(parseInt: IntParser, parseDate: DateParser, freshId: nat -> string,
                           config: LanguageConfig): (nat, Record) -> Result<WordItem, string> {
    (i: nat, r: Record) => ValidateRowWithConfig(parseInt, parseDate, r, config, freshId(i))
  }

  /** `parseCsvToWordsWithConfig`: the header report does not stop the rows from being read. */
  function ParseCsvToWordsWithConfig(parseInt: IntParser, parseDate: DateParser, freshId: nat -> string,
                                     parsed: Parsed, config: LanguageConfig): CsvResult<WordItem>
  {
    var headers := Headers(parsed);
    var (items, rowErrors) := Tally(Outcomes(parsed.data, ConfigValidator(parseInt, parseDate, freshId, config)));
    CsvResult(items, LexMessages(parsed.errors) + ConfigHeaderErrors(headers, config) + rowErrors,
              Meta(headers, |parsed.data|, |items|))
  }

  /** `parseCsvToWordsWithConfig`, step by step. */
  method ParseWordsWithConfig(parseInt: IntParser, parseDate: DateParser, freshId: nat -> string,
                              parsed: Parsed, config: LanguageConfig)
    returns (result: CsvResult<WordItem>)
    ensures result == ParseCsvToWordsWithConfig(parseInt, parseDate, freshId, parsed, config)
  {
    var headers := Headers(parsed);
    var errors := LexMessages(parsed.errors) + ConfigHeaderErrors(headers, config);
    var validWords, rowErrors := TallyRows(parsed.data, ConfigValidator(parseInt, parseDate, freshId, config));
    result := CsvResult(validWords, errors + rowErrors, Meta(headers, |parsed.data|, |validWords|));
  }

  /**
   * The data are the accepted items in row order, and the errors are the
   * lexer's, the header reports and one message per refused row in row
   * order. Every item is of the configured pair, with both texts present.
   */
  lemma {:induction false} ParseCsvToWordsWithConfigSpec(parseInt: IntParser, parseDate: DateParser,
                                                         freshId: nat -> string, parsed: Parsed, config: LanguageConfig)
    ensures var result := ParseCsvToWordsWithConfig(parseInt, parseDate, freshId, parsed, config);
      var outcomes := Outcomes(parsed.data, ConfigValidator(parseInt, parseDate, freshId, config));
      && result.errors[..|parsed.errors|] == LexMessages(parsed.errors)
      && result.data == OkValues(outcomes)
      && result.errors == LexMessages(parsed.errors) + ConfigHeaderErrors(Headers(parsed), config) + ErrMessages(outcomes)
      && |result.data| + |result.errors| == |parsed.errors| + |ConfigHeaderErrors(Headers(parsed), config)| + |parsed.data|
      && forall k :: 0 <= k < |result.data| ==>
           && result.data[k].langSrc == config.sourceLanguage && result.data[k].langTgt == config.targetLanguage
           && result.data[k].textSrc != "" && result.data[k].textTgt != ""
  {
    ConfigTally(parseInt, parseDate, freshId, parsed, config);
    ConfigValuesOfPair(parseInt, parseDate, freshId, parsed, config);
  }

  /** The data and the errors of a configured import, in terms of the row outcomes. */
  lemma ConfigTally(parseInt: IntParser, parseDate: DateParser,
                    freshId: nat -> string, parsed: Parsed, config: LanguageConfig)
    ensures var result := ParseCsvToWordsWithConfig(parseInt, parseDate, freshId, parsed, config);
      var outcomes := Outcomes(parsed.data, ConfigValidator(parseInt, parseDate, freshId, config));
      && result.errors[..|parsed.errors|] == LexMessages(parsed.errors)
      && result.data == OkValues(outcomes)
      && result.errors == LexMessages(parsed.errors) + ConfigHeaderErrors(Headers(parsed), config) + ErrMessages(outcomes)
      && |result.data| + |result.errors| == |parsed.errors| + |ConfigHeaderErrors(Headers(parsed), config)| + |parsed.data|
  {
    var outcomes := Outcomes(parsed.data, ConfigValidator(parseInt, parseDate, freshId, config));
    Assembled(LexMessages(parsed.errors), ConfigHeaderErrors(Headers(parsed), config), outcomes);
  }

  /** Messages put in front of a tally: the tally's parts, and the leading messages kept in place. */
  lemma Assembled<T>(lex: seq<string>, report: seq<string>, outcomes: seq<Result<T, string>>)
    ensures var (values, rest) := Tally(outcomes);
      && (lex + report + rest)[..|lex|] == lex
      && values == OkValues(outcomes)
      && lex + report + rest == lex + report + ErrMessages(outcomes)
      && |values| + |lex + report + rest| == |lex| + |report| + |outcomes|
  {
    TallySpec(outcomes);
    var rest := Tally(outcomes).1;
    assert (lex + report + rest)[..|lex|] == lex;
  }

  /** Every accepted item of a configured import is of the configured pair, with both texts present. */
  lemma ConfigValuesOfPair(parseInt: IntParser, parseDate: DateParser,
                           freshId: nat -> string, parsed: Parsed, config: LanguageConfig)
    ensures var values := OkValues(Outcomes(parsed.data, ConfigValidator(parseInt, parseDate, freshId, config)));
      forall k :: 0 <= k < |values| ==>
        && values[k].langSrc == config.sourceLanguage && values[k].langTgt == config.targetLanguage
        && values[k].textSrc != "" && values[k].textTgt != ""
  {
    var outcomes := Outcomes(parsed.data, ConfigValidator(parseInt, parseDate, freshId, config));
    var at := Where(outcomes, true);
    forall k | 0 <= k < |at|
      ensures var it := OkValues(outcomes)[k];
        && it.langSrc == config.sourceLanguage && it.langTgt == config.targetLanguage
        && it.textSrc != "" && it.textTgt != ""
    {
      var i := at[k];
      ValidateRowWithConfigSpec(parseInt, parseDate, parsed.data[i], config, freshId(i));
    }
  }

  // ---------------------------------------------------------------------
  // Multi-language format: parseCsvToWordsMultiLanguage /
  // validateAndConvertRowMultiLanguage
  // ---------------------------------------------------------------------

  /** `row[`word_${lang}`]?.trim()` for each display language, in order. */
  function Texts(r: Record, langs: seq<string>): (texts: seq<string>)
    ensures |texts| == |langs|
    ensures forall k :: 0 <= k < |langs| ==> texts[k] == Text(r, WordColumn(langs[k]))
  {
    seq(|langs|, k requires 0 <= k < |langs| => Text(r, WordColumn(langs[k])))
  }

  /** The item for display languages `i` (source) and `j` (target), with their texts. */
  function MultiItem(langs: seq<string>, texts: seq<string>, base: WordItem, i: nat, j: nat): WordItem
    requires |texts| == |langs| && i < |langs| && j < |langs|
  {
    base.(id := PairId(base.id, langs[i], langs[j]), langSrc := langs[i], langTgt := langs[j],
          textSrc := texts[i], textTgt := texts[j])
  }

  /** The items of the inner loop for source `i`, over the targets below `j`. */
  function TargetItems(langs: seq<string>, texts: seq<string>, base: WordItem, i: nat, j: nat): seq<WordItem>
    requires |texts| == |langs| && i < |langs| && j <= |langs|
  {
    if j == 0 then []
    else
      var pair := if i != j - 1 && texts[i] != "" && texts[j - 1] != ""
        then [MultiItem(langs, texts, base, i, j - 1)] else [];
      TargetItems(langs, texts, base, i, j - 1) + pair
  }

  /** The items of the outer loop's first `i` sources. */
  function SourceItems(langs: seq<string>, texts: seq<string>, base: WordItem, i: nat): seq<WordItem>
    requires |texts| == |langs| && i <= |langs|
  {
    if i == 0 then [] else SourceItems(langs, texts, base, i - 1) + TargetItems(langs, texts, base, i - 1, |langs|)
  }

  /** How many of the first `j` texts are non-empty. */
  function CountWithText(texts: seq<string>, j: nat): nat
    requires j <= |texts|
  {
    if j == 0 then 0 else CountWithText(texts, j - 1) + (if texts[j - 1] != "" then 1 else 0)
  }

  /** The item comes from two different display positions, both with text. */
  ghost predicate IsMultiItem(langs: seq<string>, texts: seq<string>, base: WordItem, it: WordItem)
    requires |texts| == |langs|
  {
    exists a, b :: 0 <= a < |langs| && 0 <= b < |langs| && a != b && texts[a] != "" && texts[b] != ""
      && it == MultiItem(langs, texts, base, a, b)
  }

  /** A source with text pairs with every other target with text below `j`. */
  lemma {:induction false} TargetItemsCount(langs: seq<string>, texts: seq<string>, base: WordItem, i: nat, j: nat)
    requires |texts| == |langs| && i < |langs| && j <= |langs|
    ensures |TargetItems(langs, texts, base, i, j)| + (if texts[i] != "" && i < j then 1 else 0)
         == (if texts[i] != "" then CountWithText(texts, j) else 0)
  {
    if j > 0 {
      TargetItemsCount(langs, texts, base, i, j - 1);
    }
  }

  lemma MulSucc(k: int, m: int)
    ensures (k + 1) * m == k * m + m
  {
  }

  lemma {:induction false} SourceItemsCount(langs: seq<string>, texts: seq<string>, base: WordItem, i: nat)
    requires |texts| == |langs| && i <= |langs|
    ensures |SourceItems(langs, texts, base, i)| == CountWithText(texts, i) * (CountWithText(texts, |texts|) - 1)
  {
    if i > 0 {
      SourceItemsCount(langs, texts, base, i - 1);
      TargetItemsCount(langs, texts, base, i - 1, |langs|);
      var k: int := CountWithText(texts, i - 1);
      var m: int := CountWithText(texts, |texts|) - 1;
      var before := |SourceItems(langs, texts, base, i - 1)|;
      var row := |TargetItems(langs, texts, base, i - 1, |langs|)|;
      assert |SourceItems(langs, texts, base, i)| == before + row;
      assert before == k * m;
      if texts[i - 1] != "" {
        assert row == m && CountWithText(texts, i) == k + 1;
        MulSucc(k, m);
      } else {
        assert row == 0 && CountWithText(texts, i) == k;
      }
    }
  }

  lemma {:induction false} TargetItemsAre(langs: seq<string>, texts: seq<string>, base: WordItem, i: nat, j: nat)
    requires |texts| == |langs| && i < |langs| && j <= |langs|
    ensures forall k :: 0 <= k < |TargetItems(langs, texts, base, i, j)| ==>
      IsMultiItem(langs, texts, base, TargetItems(langs, texts, base, i, j)[k])
  {
    if j > 0 {
      TargetItemsAre(langs, texts, base, i, j - 1);
      if i != j - 1 && texts[i] != "" && texts[j - 1] != "" {
        assert IsMultiItem(langs, texts, base, MultiItem(langs, texts, base, i, j - 1));
      }
    }
  }

  lemma {:induction false} SourceItemsAre(langs: seq<string>, texts: seq<string>, base: WordItem, i: nat)
    requires |texts| == |langs| && i <= |langs|
    ensures forall k :: 0 <= k < |SourceItems(langs, texts, base, i)| ==>
      IsMultiItem(langs, texts, base, SourceItems(langs, texts, base, i)[k])
  {
    if i > 0 {
      SourceItemsAre(langs, texts, base, i - 1);
      TargetItemsAre(langs, texts, base, i - 1, |langs|);
    }
  }

  lemma {:induction false} TargetItemsComplete(langs: seq<string>, texts: seq<string>, base: WordItem, i: nat, j: nat)
    requires |texts| == |langs| && i < |langs| && j <= |langs|
    ensures forall b :: 0 <= b < j && b != i && texts[i] != "" && texts[b] != "" ==>
      MultiItem(langs, texts, base, i, b) in TargetItems(langs, texts, base, i, j)
  {
    if j > 0 {
      TargetItemsComplete(langs, texts, base, i, j - 1);
    }
  }

  lemma {:induction false} SourceItemsComplete(langs: seq<string>, texts: seq<string>, base: WordItem, i: nat)
    requires |texts| == |langs| && i <= |langs|
    ensures forall a, b :: 0 <= a < i && 0 <= b < |langs| && a != b && texts[a] != "" && texts[b] != "" ==>
      MultiItem(langs, texts, base, a, b) in SourceItems(langs, texts, base, i)
  {
    if i > 0 {
      SourceItemsComplete(langs, texts, base, i - 1);
      TargetItemsComplete(langs, texts, base, i - 1, |langs|);
    }
  }

  /** An item of two positions of duplicate-free display languages is no self-pair. */
  lemma NoSelfPair(langs: seq<string>, texts: seq<string>, base: WordItem, it: WordItem)
    requires |texts| == |langs| && NoDup(langs) && IsMultiItem(langs, texts, base, it)
    ensures it.langSrc != it.langTgt
    ensures it.id == PairId(base.id, it.langSrc, it.langTgt)
    ensures it.textSrc != "" && it.textTgt != ""
  {
    var a, b :| 0 <= a < |langs| && 0 <= b < |langs| && a != b && texts[a] != "" && texts[b] != ""
      && it == MultiItem(langs, texts, base, a, b);
    if a < b {
      assert langs[a] != langs[b];
    } else {
      assert langs[b] != langs[a];
    }
  }

  /** The items of one record: every pair of display languages with text, in loop order. */
  function RecordItems(r: Record, langs: seq<string>, base: WordItem): seq<WordItem> {
    SourceItems(langs, Texts(r, langs), base, |langs|)
  }

  /**
   * With `k` display positions having text, the loops give exactly k(k-1)
   * items; each pairs two different positions with text, and each such
   * pair is there; for duplicate-free display languages no item pairs a
   * language with itself, and each carries the composite id.
   */
  lemma PairItemsSpec(langs: seq<string>, texts: seq<string>, base: WordItem)
    requires |texts| == |langs|
    ensures var k := CountWithText(texts, |texts|);
      |SourceItems(langs, texts, base, |langs|)| == k * (k - 1)
    ensures forall n :: 0 <= n < |SourceItems(langs, texts, base, |langs|)| ==>
      IsMultiItem(langs, texts, base, SourceItems(langs, texts, base, |langs|)[n])
    ensures forall a, b :: 0 <= a < |langs| && 0 <= b < |langs| && a != b && texts[a] != "" && texts[b] != "" ==>
      MultiItem(langs, texts, base, a, b) in SourceItems(langs, texts, base, |langs|)
    ensures NoDup(langs) ==> forall n :: 0 <= n < |SourceItems(langs, texts, base, |langs|)| ==>
      (var it := SourceItems(langs, texts, base, |langs|)[n]; it.langSrc != it.langTgt && it.id == PairId(base.id, it.langSrc, it.langTgt))
  {
    var items := SourceItems(langs, texts, base, |langs|);
    SourceItemsCount(langs, texts, base, |langs|);
    SourceItemsAre(langs, texts, base, |langs|);
    SourceItemsComplete(langs, texts, base, |langs|);
    if NoDup(langs) {
      forall n | 0 <= n < |items|
        ensures items[n].langSrc != items[n].langTgt && items[n].id == PairId(base.id, items[n].langSrc, items[n].langTgt)
      {
        NoSelfPair(langs, texts, base, items[n]);
      }
    }
  }

  /** The inner loop of `validateAndConvertRowMultiLanguage` for source `i`. */
  method ExpandSource(r: Record, langs: seq<string>, base: WordItem, i: nat) returns (items: seq<WordItem>)
    requires i < |langs|
    ensures items == TargetItems(langs, Texts(r, langs), base, i, |langs|)
  {
    ghost var texts := Texts(r, langs);
    items := [];
    for j := 0 to |langs|
      invariant items == TargetItems(langs, texts, base, i, j)
    {
      if i != j {
        var sourceText := Text(r, WordColumn(langs[i]));
        var targetText := Text(r, WordColumn(langs[j]));
        if sourceText != "" && targetText != "" {
          items := items + [base.(id := PairId(base.id, langs[i], langs[j]), langSrc := langs[i], langTgt := langs[j],
                                  textSrc := sourceText, textTgt := targetText)];
        }
      }
    }
  }

  /** Both loops of `validateAndConvertRowMultiLanguage`. */
  method ExpandRecord(r: Record, langs: seq<string>, base: WordItem) returns (items: seq<WordItem>)
    ensures items == RecordItems(r, langs, base)
  {
    ghost var texts := Texts(r, langs);
    items := [];
    for i := 0 to |langs|
      invariant items == SourceItems(langs, texts, base, i)
    {
      var pairs := ExpandSource(r, langs, base, i);
      items := items + pairs;
    }
  }

  /** `validateAndConvertRowMultiLanguage`: the items of the record, or the date message it throws. */
  function ValidateRowMultiLanguage(parseInt: IntParser, parseDate: DateParser, r: Record,
                                    langs: seq<string>, freshId: string): Result<seq<WordItem>, string>
  {
    var errors := DateErrors(parseDate, r);
    if errors != [] then Err(Join(errors, "; "))
    else Ok(RecordItems(r, langs, ItemStats(parseInt, r, RowId(r, freshId))))
  }

  /**
   * Only an unreadable date refuses a record, with the date message alone;
   * otherwise the record's items are its k(k-1) pairs, each with the
   * record's (given or generated) id as the base of its composite id.
   */
  lemma ValidateRowMultiLanguageSpec(parseInt: IntParser, parseDate: DateParser, r: Record,
                                     langs: seq<string>, freshId: string)
    ensures var res := ValidateRowMultiLanguage(parseInt, parseDate, r, langs, freshId);
      var k := CountWithText(Texts(r, langs), |langs|);
      && (res.Err? <==> Optional(r, "last_review").Some? && parseDate(Text(r, "last_review")).None?)
      && (res.Err? ==> res.error == "Invalid last_review date format: " + Text(r, "last_review"))
      && (res.Ok? ==> |res.value| == k * (k - 1))
      && (res.Ok? && NoDup(langs) ==> forall n :: 0 <= n < |res.value| ==>
            res.value[n].langSrc != res.value[n].langTgt
            && res.value[n].id == PairId(RowId(r, freshId), res.value[n].langSrc, res.value[n].langTgt))
  {
    if DateErrors(parseDate, r) != [] {
      JoinDateError(parseDate, r);
    } else {
      PairItemsSpec(langs, Texts(r, langs), ItemStats(parseInt, r, RowId(r, freshId)));
    }
  }

  /** The same validation, step by step. */
  method ConvertRowMultiLanguage(parseInt: IntParser, parseDate: DateParser, r: Record,
                                 langs: seq<string>, freshId: string) returns (res: Result<seq<WordItem>, string>)
    ensures res == ValidateRowMultiLanguage(parseInt, parseDate, r, langs, freshId)
  {
    var errors := DateErrors(parseDate, r);
    if errors != [] {
      return Err(Join(errors, "; "));
    }
    var items := ExpandRecord(r, langs, ItemStats(parseInt, r, RowId(r, freshId)));
    return Ok(items);
  }

  /** `validateAndConvertRowMultiLanguage` for data row `i`, with `freshId(i)` as its generated id. */
  function MultiValidator(parseInt: IntParser, parseDate: DateParser, freshId: nat -> string,
                          langs: seq<string>): (nat, Record) -> Result<seq<WordItem>, string> {
    (i: nat, r: Record) => ValidateRowMultiLanguage(parseInt, parseDate, r, langs, freshId(i))
  }

  /** `parseCsvToWordsMultiLanguage`; `validRows` counts items, not records. */
  function ParseCsvToWordsMultiLanguage(parseInt: IntParser, parseDate: DateParser, freshId: nat -> string,
                                        parsed: Parsed, langs: seq<string>): CsvResult<WordItem>
  {
    var errors := LexMessages(parsed.errors);
    var headers := Headers(parsed);
    if |WordColumns(headers)| < 2 then CsvResult([], errors + [TooFewColumns], Meta(headers, 0, 0))
    else
      var (groups, rowErrors) := Tally(Outcomes(parsed.data, MultiValidator(parseInt, parseDate, freshId, langs)));
      var items := Flatten(groups);
      CsvResult(items, errors + rowErrors, Meta(headers, |parsed.data|, |items|))
  }

  /** `parseCsvToWordsMultiLanguage`, step by step. */
  method ParseWordsMultiLanguage(parseInt: IntParser, parseDate: DateParser, freshId: nat -> string,
                                 parsed: Parsed, langs: seq<string>)
    returns (result: CsvResult<WordItem>)
    ensures result == ParseCsvToWordsMultiLanguage(parseInt, parseDate, freshId, parsed, langs)
  {
    var errors := LexMessages(parsed.errors);
    var headers := Headers(parsed);
    if |WordColumns(headers)| < 2 {
      errors := errors + [TooFewColumns];
      return CsvResult([], errors, Meta(headers, 0, 0));
    }
    var validWords, rowErrors := TallyRowGroups(parsed.data, MultiValidator(parseInt, parseDate, freshId, langs));
    result := CsvResult(validWords, errors + rowErrors, Meta(headers, |parsed.data|, |validWords|));
  }

  /** The items of each record, record by record, with the id generated for that row. */
  function RecordGroups(parseInt: IntParser, freshId: nat -> string, langs: seq<string>,
                        data: seq<Record>): (groups: seq<seq<WordItem>>)
    ensures |groups| == |data|
    ensures forall i :: 0 <= i < |data| ==>
      groups[i] == RecordItems(data[i], langs, ItemStats(parseInt, data[i], RowId(data[i], freshId(i))))
  {
    seq(|data|, i requires 0 <= i < |data| => RecordItems(data[i], langs, ItemStats(parseInt, data[i], RowId(data[i], freshId(i)))))
  }

  /**
   * Fewer than two `word_` headers gives no data and the column error;
   * otherwise the data are the pairs of the accepted records, record after
   * record, and the errors are the lexer's and one message per refused
   * record in row order; when no record has an unreadable date, there are
   * no row errors and the data are every record's pairs.
   */
  lemma ParseCsvToWordsMultiLanguageSpec(parseInt: IntParser, parseDate: DateParser, freshId: nat -> string,
                                         parsed: Parsed, langs: seq<string>)
    ensures var result := ParseCsvToWordsMultiLanguage(parseInt, parseDate, freshId, parsed, langs);
      var outcomes := Outcomes(parsed.data, MultiValidator(parseInt, parseDate, freshId, langs));
      && (|WordColumns(Headers(parsed))| < 2 ==>
            result.data == [] && result.errors == LexMessages(parsed.errors) + [TooFewColumns])
      && (|WordColumns(Headers(parsed))| >= 2 ==>
            result.data == Flatten(OkValues(outcomes))
            && result.errors == LexMessages(parsed.errors) + ErrMessages(outcomes))
      && (|WordColumns(Headers(parsed))| >= 2 && (forall i :: 0 <= i < |parsed.data| ==> DateErrors(parseDate, parsed.data[i]) == []) ==>
            result.errors == LexMessages(parsed.errors)
            && result.data == Flatten(RecordGroups(parseInt, freshId, langs, parsed.data)))
  {
    if |WordColumns(Headers(parsed))| >= 2 {
      MultiLanguageTally(parseInt, parseDate, freshId, parsed, langs);
      if forall i :: 0 <= i < |parsed.data| ==> DateErrors(parseDate, parsed.data[i]) == [] {
        MultiLanguageAllAccepted(parseInt, parseDate, freshId, parsed, langs);
      }
    }
  }

  /** With at least two word columns, the result is the flattened accepted records and their refusals. */
  lemma MultiLanguageTally(parseInt: IntParser, parseDate: DateParser, freshId: nat -> string,
                           parsed: Parsed, langs: seq<string>)
    requires |WordColumns(Headers(parsed))| >= 2
    ensures var result := ParseCsvToWordsMultiLanguage(parseInt, parseDate, freshId, parsed, langs);
      var outcomes := Outcomes(parsed.data, MultiValidator(parseInt, parseDate, freshId, langs));
      && result.data == Flatten(OkValues(outcomes))
      && result.errors == LexMessages(parsed.errors) + ErrMessages(outcomes)
  {
    var outcomes := Outcomes(parsed.data, MultiValidator(parseInt, parseDate, freshId, langs));
    Assembled(LexMessages(parsed.errors), [], outcomes);
    assert LexMessages(parsed.errors) + [] == LexMessages(parsed.errors);
  }

  /** When no record has an unreadable date, every record is accepted. */
  lemma MultiLanguageAllAccepted(parseInt: IntParser, parseDate: DateParser, freshId: nat -> string,
                                 parsed: Parsed, langs: seq<string>)
    requires |WordColumns(Headers(parsed))| >= 2
    requires forall i :: 0 <= i < |parsed.data| ==> DateErrors(parseDate, parsed.data[i]) == []
    ensures var result := ParseCsvToWordsMultiLanguage(parseInt, parseDate, freshId, parsed, langs);
      && result.errors == LexMessages(parsed.errors)
      && result.data == Flatten(RecordGroups(parseInt, freshId, langs, parsed.data))
  {
    var outcomes := Outcomes(parsed.data, MultiValidator(parseInt, parseDate, freshId, langs));
    var groups := RecordGroups(parseInt, freshId, langs, parsed.data);
    forall i | 0 <= i < |parsed.data|
      ensures outcomes[i] == Ok(groups[i])
    {
      assert DateErrors(parseDate, parsed.data[i]) == [];
    }
    TallyAllOk(outcomes);
    assert Tally(outcomes).0 == groups;
    assert LexMessages(parsed.errors) + [] == LexMessages(parsed.errors);
  }

  // ---------------------------------------------------------------------
  // Export: convertWordsToCsv
  // ---------------------------------------------------------------------

  /** The columns of an exported item, in the order of its object literal. */
  const ExportHeaders: seq<string> :=
    ["id", "lang_src", "lang_tgt", "text_src", "text_tgt", "times", "learned", "errors",
     "last_review", "spell_errors", "notes", "stars"]

  /**
   * The object `convertWordsToCsv` builds for one item, with its cells
   * printed as the CSV writer prints them (`learned` always 0, a missing
   * date or note as the empty text, missing `stars` as an empty cell).
   */
  function ExportRecord(w: WordItem): Record {
    map["id" := w.id, "lang_src" := w.langSrc, "lang_tgt" := w.langTgt,
        "text_src" := w.textSrc, "text_tgt" := w.textTgt,
        "times" := IntToString(w.times), "learned" := "0", "errors" := IntToString(w.errors),
        "last_review" := w.lastReview.GetOr(""), "spell_errors" := IntToString(w.spellErrors),
        "notes" := w.notes.GetOr(""),
        "stars" := match w.stars case Some(s) => IntToString(s) case None => ""]
  }

  /** `words.map(…)`: one record per item, in order. */
  function ConvertWordsToCsv(words: seq<WordItem>): (records: seq<Record>)
    ensures |records| == |words|
    ensures forall k :: 0 <= k < |words| ==> records[k].Keys == set h | h in ExportHeaders
  {
    seq(|words|, k requires 0 <= k < |words| => ExportRecord(words[k]))
  }

  /** The exported columns include every header the legacy import expects. */
  lemma ExportHasLegacyHeaders()
    ensures MissingHeadersErrors(LegacyHeaders, ExportHeaders) == []
  {
    MissingHeadersErrorsSpec(LegacyHeaders, ExportHeaders);
  }

  /** A non-empty text without surrounding white space. */
  predicate Clean(s: string) {
    s != "" && Trim(s) == s
  }

  /** `parseInt` reads printed integers back and finds no number in the empty text. */
  ghost predicate ReadsIntegers(parseInt: IntParser) {
    (forall n :: parseInt(IntToString(n)) == Some(n)) && parseInt("") == None
  }

  /** The five required texts of an item are non-empty and survive trimming. */
  predicate CleanTexts(w: WordItem) {
    Clean(w.id) && Clean(w.langSrc) && Clean(w.langTgt) && Clean(w.textSrc) && Clean(w.textTgt)
  }

  /** An item whose every text field survives trimming and whose tags and date are valid. */
  ghost predicate Exportable(parseDate: DateParser, w: WordItem) {
    && CleanTexts(w)
    && IsValidLanguageTag(w.langSrc) && IsValidLanguageTag(w.langTgt)
    && (w.lastReview.Some? ==> Clean(w.lastReview.value) && parseDate(w.lastReview.value).Some?)
    && (w.notes.Some? ==> Clean(w.notes.value))
  }

  /** Two texts that differ at one position are different. */
  lemma DiffersAt(a: string, b: string, k: nat)
    requires k < |a| && k < |b| && a[k] != b[k]
    ensures a != b
  {
  }

  /** The record holds the text fields of `w` under the legacy column names. */
  predicate HoldsTexts(r: Record, w: WordItem) {
    && "id" in r && r["id"] == w.id
    && "lang_src" in r && r["lang_src"] == w.langSrc && "lang_tgt" in r && r["lang_tgt"] == w.langTgt
    && "text_src" in r && r["text_src"] == w.textSrc && "text_tgt" in r && r["text_tgt"] == w.textTgt
    && "last_review" in r && r["last_review"] == w.lastReview.GetOr("")
    && "notes" in r && r["notes"] == w.notes.GetOr("")
  }

  /** The record holds the counters of `w`, printed, under the legacy column names. */
  predicate HoldsCounters(r: Record, w: WordItem) {
    && "times" in r && r["times"] == IntToString(w.times)
    && "errors" in r && r["errors"] == IntToString(w.errors)
    && "spell_errors" in r && r["spell_errors"] == IntToString(w.spellErrors)
    && "stars" in r && r["stars"] == (match w.stars case Some(s) => IntToString(s) case None => "")
  }

  /** The record holds the printed fields of `w` under the legacy column names. */
  predicate HoldsItem(r: Record, w: WordItem) {
    HoldsTexts(r, w) && HoldsCounters(r, w)
  }

  /** An exported record holds the texts of its item. */
  lemma ExportHoldsTexts(w: WordItem)
    ensures HoldsTexts(ExportRecord(w), w)
  {
    DiffersAt("lang_src", "lang_tgt", 5);
    DiffersAt("lang_src", "text_src", 0);
    DiffersAt("lang_src", "text_tgt", 0);
    DiffersAt("lang_tgt", "text_src", 0);
    DiffersAt("lang_tgt", "text_tgt", 0);
    DiffersAt("text_src", "text_tgt", 5);
    DiffersAt("times", "notes", 0);
    DiffersAt("notes", "stars", 0);
  }

  /** An exported record holds the counters of its item. */
  lemma ExportHoldsCounters(w: WordItem)
    ensures HoldsCounters(ExportRecord(w), w)
  {
    DiffersAt("times", "notes", 0);
    DiffersAt("times", "stars", 0);
    DiffersAt("notes", "stars", 0);
  }

  /** An exported record holds its item. */
  lemma ExportHoldsItem(w: WordItem)
    ensures HoldsItem(ExportRecord(w), w)
  {
    ExportHoldsTexts(w);
    ExportHoldsCounters(w);
  }

  /** The text cells of a record holding an item read back as the item's fields. */
  lemma HeldTexts(r: Record, w: WordItem)
    requires HoldsTexts(r, w) && CleanTexts(w)
    ensures && Text(r, "id") == w.id
      && FieldText(r, LangSrc) == w.langSrc && FieldText(r, LangTgt) == w.langTgt
      && FieldText(r, TextSrc) == w.textSrc && FieldText(r, TextTgt) == w.textTgt
  {
  }

  /** The optional cells of a record holding an item read back as the item's date and notes. */
  lemma HeldOptionals(parseDate: DateParser, r: Record, w: WordItem)
    requires HoldsItem(r, w) && Exportable(parseDate, w)
    ensures Optional(r, "last_review") == w.lastReview && Optional(r, "notes") == w.notes
  {
    TrimOfTrimmed("");
  }

  /** The numeric cells of a record holding an item read back as the item's counters. */
  lemma HeldNumbers(parseInt: IntParser, r: Record, w: WordItem)
    requires HoldsItem(r, w) && ReadsIntegers(parseInt)
    ensures && IntField(parseInt, r, "times") == w.times
      && IntField(parseInt, r, "errors") == w.errors
      && IntField(parseInt, r, "spell_errors") == w.spellErrors
      && IntField(parseInt, r, "stars") == w.stars.GetOr(0)
  {
  }

  /**
   * A record holding an exportable item validates, in the legacy format, to
   * that item, except that missing `stars` come back as 0.
   */
  lemma ValidateHeldItem(parseInt: IntParser, parseDate: DateParser, r: Record, w: WordItem, freshId: string)
    requires HoldsItem(r, w) && ReadsIntegers(parseInt) && Exportable(parseDate, w)
    ensures ValidateRow(parseInt, parseDate, r, freshId) == Ok(w.(stars := Some(w.stars.GetOr(0))))
  {
    HeldTexts(r, w);
    HeldOptionals(parseDate, r, w);
    HeldNumbers(parseInt, r, w);
  }

  /**
   * Exporting an item and validating the record in the legacy format gives
   * the item back, except that missing `stars` come back as 0.
   */
  lemma ExportRoundTrip(parseInt: IntParser, parseDate: DateParser, w: WordItem, freshId: string)
    requires ReadsIntegers(parseInt) && Exportable(parseDate, w)
    ensures ValidateRow(parseInt, parseDate, ExportRecord(w), freshId) == Ok(w.(stars := Some(w.stars.GetOr(0))))
  {
    ExportHoldsItem(w);
    ValidateHeldItem(parseInt, parseDate, ExportRecord(w), w, freshId);
  }
}
