/**
 * Text comparison and language-tag helpers: the Levenshtein distance filled
 * in a matrix, the similarity ratio built on it, the similarity test used for
 * spelling checks, the language-tag grammar, the primary language code of a
 * tag and the display names of common tags.
 */
module Normalize {
  import opened Wrappers
  import opened Strings
  import opened OrderedMap

  // ---------------------------------------------------------------------
  // Levenshtein distance
  // ---------------------------------------------------------------------

  function Min(x: nat, y: nat): nat { if x <= y then x else y }

  /** `Math.min(x, y, z)`. */
  function Min3(x: nat, y: nat, z: nat): (m: nat)
    ensures m <= x && m <= y && m <= z
    ensures m == x || m == y || m == z
  {
    Min(Min(x, y), z)
  }

  /**
   * The matrix cell `matrix[j][i]`: the edit distance between the first `i`
   * characters of `a` and the first `j` characters of `b`.
   */
  function Lev(a: string, b: string, i: nat, j: nat): nat
    requires i <= |a| && j <= |b|
    decreases i + j
  {
    if j == 0 then i
    else if i == 0 then j
    else
      var indicator := if a[i - 1] == b[j - 1] then 0 else 1;
      Min3(Lev(a, b, i - 1, j) + 1, Lev(a, b, i, j - 1) + 1, Lev(a, b, i - 1, j - 1) + indicator)
  }

  /** `levenshteinDistance(a, b)`. */
  function Distance(a: string, b: string): nat {
    Lev(a, b, |a|, |b|)
  }

  /** The matrix filling of `levenshteinDistance`. */
  method LevenshteinDistance(str1: string, str2: string) returns (d: nat)
    ensures d == Distance(str1, str2)
  {
    var matrix := new nat[|str2| + 1, |str1| + 1];
    for i := 0 to |str1| + 1
      invariant forall ii :: 0 <= ii < i ==> matrix[0, ii] == ii
    {
      matrix[0, i] := i;
    }
    for j := 0 to |str2| + 1
      invariant forall ii :: 0 <= ii <= |str1| ==> matrix[0, ii] == ii
      invariant forall jj :: 0 <= jj < j ==> matrix[jj, 0] == jj
    {
      matrix[j, 0] := j;
    }
    for j := 1 to |str2| + 1
      invariant forall ii {:trigger matrix[j - 1, ii]} :: 0 <= ii <= |str1| ==> matrix[j - 1, ii] == Lev(str1, str2, ii, j - 1)
      invariant forall jj :: j <= jj <= |str2| ==> matrix[jj, 0] == jj
    {
      FillRow(matrix, str1, str2, j);
    }
    d := matrix[|str2|, |str1|];
  }

  /**
   * The inner loop of `levenshteinDistance`: row `j` of the matrix from the
   * row above it, leaving the first column of the later rows alone.
   */
  method FillRow(matrix: array2<nat>, str1: string, str2: string, j: nat)
    requires matrix.Length0 == |str2| + 1 && matrix.Length1 == |str1| + 1
    requires 1 <= j <= |str2| && matrix[j, 0] == j
    requires forall ii {:trigger matrix[j - 1, ii]} :: 0 <= ii <= |str1| ==> matrix[j - 1, ii] == Lev(str1, str2, ii, j - 1)
    modifies matrix
    ensures forall ii {:trigger matrix[j, ii]} :: 0 <= ii <= |str1| ==> matrix[j, ii] == Lev(str1, str2, ii, j)
    ensures forall jj :: j < jj <= |str2| ==> matrix[jj, 0] == old(matrix[jj, 0])
  {
    for i := 1 to |str1| + 1
      invariant forall ii {:trigger matrix[j - 1, ii]} :: 0 <= ii <= |str1| ==> matrix[j - 1, ii] == Lev(str1, str2, ii, j - 1)
      invariant forall ii {:trigger matrix[j, ii]} :: 0 <= ii < i ==> matrix[j, ii] == Lev(str1, str2, ii, j)
      invariant forall jj :: j < jj <= |str2| ==> matrix[jj, 0] == old(matrix[jj, 0])
    {
      var indicator := if str1[i - 1] == str2[j - 1] then 0 else 1;
      var cell := Min3(matrix[j, i - 1] + 1, matrix[j - 1, i] + 1, matrix[j - 1, i - 1] + indicator);
      assert cell == Lev(str1, str2, i, j);
      matrix[j, i] := cell;
    }
  }

  /** The first row and column: the distance to an empty string is the other's length. */
  lemma DistanceToEmpty(s: string)
    ensures Distance(s, "") == |s| && Distance("", s) == |s|
  {
  }

  /**
   * `matrix[j][i]` as the lemmas below state it: `Lev` behind one
   * non-recursive call, so that a goal about a cell unfolds the recurrence
   * only where a proof asks for it.
   */
  function Cell(a: string, b: string, i: nat, j: nat): nat
    requires i <= |a| && j <= |b|
  {
    Lev(a, b, i, j)
  }

  /** matrix[j][i] <= max(i, j): the diagonal step costs at most one. */
  lemma {:induction false} LevUpper(a: string, b: string, i: nat, j: nat)
    requires i <= |a| && j <= |b|
    ensures Cell(a, b, i, j) <= if i < j then j else i
    decreases i + j
  {
    if i == 0 {
    } else if j == 0 {
    } else {
      LevUpper(a, b, i - 1, j - 1);
    }
  }

  /** |i - j| <= matrix[j][i]: each step shortens the longer prefix by at most one. */
  lemma {:induction false} LevLower(a: string, b: string, i: nat, j: nat)
    requires i <= |a| && j <= |b|
    ensures Cell(a, b, i, j) >= if i < j then j - i else i - j
    decreases i + j
  {
    if i == 0 {
    } else if j == 0 {
    } else {
      LevLower(a, b, i - 1, j);
      LevLower(a, b, i, j - 1);
      LevLower(a, b, i - 1, j - 1);
    }
  }

  /** |i - j| <= matrix[j][i] <= max(i, j). */
  lemma LevBounds(a: string, b: string, i: nat, j: nat)
    requires i <= |a| && j <= |b|
    ensures Cell(a, b, i, j) <= if i < j then j else i
    ensures Cell(a, b, i, j) >= if i < j then j - i else i - j
  {
    LevUpper(a, b, i, j);
    LevLower(a, b, i, j);
  }

  /** Equal prefixes of equal length are at distance zero. */
  lemma {:induction false} LevOfEqual(a: string, b: string, i: nat)
    requires i <= |a| && i <= |b| && a[..i] == b[..i]
    ensures Cell(a, b, i, i) == 0
  {
    if i > 0 {
      assert a[..i - 1] == a[..i][..i - 1] == b[..i][..i - 1] == b[..i - 1];
      assert a[i - 1] == a[..i][i - 1] == b[..i][i - 1] == b[i - 1];
      LevOfEqual(a, b, i - 1);
    }
  }

  /** A zero cell lies on the diagonal, between equal prefixes. */
  lemma {:induction false} LevZeroEqual(a: string, b: string, i: nat, j: nat)
    requires i <= |a| && j <= |b| && Cell(a, b, i, j) == 0
    ensures i == j && a[..i] == b[..j]
    decreases i + j
  {
    LevBounds(a, b, i, j);
    if i > 0 {
      LevLower(a, b, i - 1, j);
      LevLower(a, b, i, j - 1);
      assert Cell(a, b, i - 1, j - 1) == 0 && a[i - 1] == b[j - 1];
      LevZeroEqual(a, b, i - 1, j - 1);
      assert a[..i] == a[..i - 1] + [a[i - 1]];
      assert b[..j] == b[..j - 1] + [b[j - 1]];
    }
  }

  /** A zero cell means the two prefixes are equal, and conversely. */
  lemma LevZero(a: string, b: string, i: nat, j: nat)
    requires i <= |a| && j <= |b|
    ensures Cell(a, b, i, j) == 0 <==> i == j && a[..i] == b[..j]
  {
    if Cell(a, b, i, j) == 0 {
      LevZeroEqual(a, b, i, j);
    } else if i == j && a[..i] == b[..j] {
      LevOfEqual(a, b, i);
    }
  }

  /** The distance is symmetric (the matrix transposes). */
  lemma {:induction false} LevSymmetric(a: string, b: string, i: nat, j: nat)
    requires i <= |a| && j <= |b|
    ensures Cell(a, b, i, j) == Cell(b, a, j, i)
    decreases i + j
  {
    if i == 0 {
    } else if j == 0 {
    } else {
      LevSymmetric(a, b, i - 1, j);
      LevSymmetric(a, b, i, j - 1);
      LevSymmetric(a, b, i - 1, j - 1);
      Min3Swap(Lev(a, b, i - 1, j) + 1, Lev(a, b, i, j - 1) + 1, Lev(a, b, i - 1, j - 1) + (if a[i - 1] == b[j - 1] then 0 else 1));
    }
  }

  lemma Min3Swap(x: nat, y: nat, z: nat)
    ensures Min3(x, y, z) == Min3(y, x, z)
  {
  }

  /**
   * The properties of an edit distance: zero exactly on equal strings,
   * symmetric, and between the difference and the maximum of the lengths.
   */
  lemma DistanceSpec(a: string, b: string)
    ensures Distance(a, b) == 0 <==> a == b
    ensures Distance(a, b) == Distance(b, a)
    ensures Distance(a, b) <= if |a| < |b| then |b| else |a|
    ensures Distance(a, b) >= if |a| < |b| then |b| - |a| else |a| - |b|
  {
    LevZero(a, b, |a|, |b|);
    assert a[..|a|] == a && b[..|b|] == b;
    LevSymmetric(a, b, |a|, |b|);
    LevBounds(a, b, |a|, |b|);
  }

  // ---------------------------------------------------------------------
  // Similarity
  // ---------------------------------------------------------------------

  /** `calculateSimilarity`: 1 for two empty strings, else (max - distance) / max. */
  function Similarity(a: string, b: string): real {
    var maxLength := if |a| < |b| then |b| else |a|;
    if maxLength == 0 then 1.0
    else (maxLength - Distance(a, b)) as real / maxLength as real
  }

  /** The ratio lies in [0, 1], is 1 exactly for equal strings, and is symmetric. */
  lemma SimilaritySpec(a: string, b: string)
    ensures 0.0 <= Similarity(a, b) <= 1.0
    ensures Similarity(a, b) == 1.0 <==> a == b
    ensures Similarity(a, b) == Similarity(b, a)
  {
    DistanceSpec(a, b);
    var maxLength := if |a| < |b| then |b| else |a|;
    if maxLength > 0 {
      var d := Distance(a, b);
      Ratio((maxLength - d) as real, maxLength as real);
    }
  }

  /** A ratio `x / m` with `0 <= x <= m` lies in [0, 1] and is 1 exactly when `x == m`. */
  lemma Ratio(x: real, m: real)
    requires 0.0 <= x <= m && m > 0.0
    ensures 0.0 <= x / m <= 1.0
    ensures x / m == 1.0 <==> x == m
  {
    assert x / m * m == x;
  }

  /** The default `threshold` of `isSimilarText`. */
  const DefaultThreshold: real := 0.8

  /**
   * `isSimilarText(text1, text2, threshold)`. `normalizeText` is Unicode
   * decomposition and regular-expression replacement, so it is a parameter.
   */
  function IsSimilarText(normalize: string -> string, text1: string, text2: string, threshold: real): bool {
    var normalized1 := normalize(text1);
    var normalized2 := normalize(text2);
    if normalized1 == normalized2 then true
    else Similarity(normalized1, normalized2) >= threshold
  }

  /**
   * Texts with equal normal forms are similar at every threshold; the test is
   * symmetric; and above 1 only equal normal forms pass.
   */
  lemma IsSimilarTextSpec(normalize: string -> string, text1: string, text2: string, threshold: real)
    ensures normalize(text1) == normalize(text2) ==> IsSimilarText(normalize, text1, text2, threshold)
    ensures IsSimilarText(normalize, text1, text2, threshold) == IsSimilarText(normalize, text2, text1, threshold)
    ensures threshold > 1.0 ==>
      (IsSimilarText(normalize, text1, text2, threshold) <==> normalize(text1) == normalize(text2))
  {
    SimilaritySpec(normalize(text1), normalize(text2));
  }

  // ---------------------------------------------------------------------
  // Language tags
  // ---------------------------------------------------------------------

  predicate IsAsciiLetter(c: char) {
    'a' <= c <= 'z' || 'A' <= c <= 'Z'
  }

  predicate IsAsciiAlnum(c: char) {
    IsAsciiLetter(c) || '0' <= c <= '9'
  }

  predicate AllLetters(s: string) {
    forall k :: 0 <= k < |s| ==> IsAsciiLetter(s[k])
  }

  predicate AllAlnum(s: string) {
    forall k :: 0 <= k < |s| ==> IsAsciiAlnum(s[k])
  }

  /** The optional groups after the primary subtag, in the order the pattern lists them. */
  datatype Subtag = Region | Variant | Extension

  /** Whether one subtag fills an optional group (the `i` flag makes letter classes case-blind). */
  predicate Fits(part: string, g: Subtag) {
    match g
    case Region => |part| == 2 && AllLetters(part)
    case Variant => 5 <= |part| <= 8 && AllAlnum(part)
    case Extension => 1 <= |part| <= 8 && AllAlnum(part)
  }

  /** `-[A-Z]{2}`, `-[a-z0-9]{5,8}`, then two `-[a-z0-9]{1,8}`, each optional. */
  const OptionalGroups: seq<Subtag> := [Region, Variant, Extension, Extension]

  /** The remaining subtags fill some of the remaining optional groups, in order. */
  predicate FillGroups(parts: seq<string>, groups: seq<Subtag>)
    decreases |parts| + |groups|
  {
    if parts == [] then true
    else if groups == [] then false
    else (Fits(parts[0], groups[0]) && FillGroups(parts[1..], groups[1..])) || FillGroups(parts, groups[1..])
  }

  /**
   * `isValidLanguageTag`: the anchored, case-insensitive pattern
   * `[a-z]{2,3}(-[A-Z]{2})?(-[a-z0-9]{5,8})?(-[a-z0-9]{1,8})?(-[a-z0-9]{1,8})?`.
   * No character class admits `-`, so the groups are the `-`-separated subtags.
   */
  predicate IsValidLanguageTag(tag: string) {
    var parts := Split(tag, '-');
    2 <= |parts[0]| <= 3 && AllLetters(parts[0]) && FillGroups(parts[1..], OptionalGroups)
  }

  lemma {:induction false} FillGroupsBound(parts: seq<string>, groups: seq<Subtag>)
    requires FillGroups(parts, groups)
    ensures |parts| <= |groups|
    decreases |parts| + |groups|
  {
    if parts != [] {
      if Fits(parts[0], groups[0]) && FillGroups(parts[1..], groups[1..]) {
        FillGroupsBound(parts[1..], groups[1..]);
      } else {
        FillGroupsBound(parts, groups[1..]);
      }
    }
  }

  /** A valid tag has at most five subtags and a primary code of two or three letters. */
  lemma ValidTagShape(tag: string)
    requires IsValidLanguageTag(tag)
    ensures |Split(tag, '-')| <= 5
    ensures 2 <= |ExtractLanguageCode(tag)| <= 3 && AllLetters(ExtractLanguageCode(tag))
  {
    FillGroupsBound(Split(tag, '-')[1..], OptionalGroups);
  }

  /** Letters never include the separator. */
  lemma LettersHaveNoDash(s: string)
    requires AllLetters(s)
    ensures '-' !in s
  {
  }

  /** Any primary code of two or three letters is a valid tag by itself. */
  lemma ValidPrimary(primary: string)
    requires 2 <= |primary| <= 3 && AllLetters(primary)
    ensures IsValidLanguageTag(primary)
  {
    LettersHaveNoDash(primary);
    SplitNoSep(primary, '-');
    assert Split(primary, '-')[1..] == [];
  }

  /** Any primary code of two or three letters followed by a two-letter region is a valid tag. */
  lemma ValidWithRegion(primary: string, region: string)
    requires 2 <= |primary| <= 3 && AllLetters(primary)
    requires |region| == 2 && AllLetters(region)
    ensures IsValidLanguageTag(primary + "-" + region)
  {
    LettersHaveNoDash(primary);
    LettersHaveNoDash(region);
    SplitNoSep(region, '-');
    SplitOfJoined(primary, '-', region);
    assert primary + "-" + region == primary + ['-'] + region;
    var parts := Split(primary + "-" + region, '-');
    assert parts[1..] == [region];
    assert FillGroups([region][1..], OptionalGroups[1..]) by {
      assert [region][1..] == [];
    }
  }

  /** A language with a region is a valid tag. */
  lemma ValidTagExample()
    ensures IsValidLanguageTag("en-US")
  {
    SplitNoSep("US", '-');
    SplitOfJoined("en", '-', "US");
    assert "en-US" == "en" + ['-'] + "US";
  }

  /** An underscore is no separator, and an empty subtag fills no group. */
  lemma InvalidTagExamples()
    ensures !IsValidLanguageTag("en_US")
    ensures !IsValidLanguageTag("en-")
  {
    SplitNoSep("en_US", '-');
    SplitNoSep("", '-');
    SplitOfJoined("en", '-', "");
    assert "en-" == "en" + ['-'] + "";
  }

  /** `extractLanguageCode(tag)`: the tag up to its first `-`. */
  function ExtractLanguageCode(tag: string): (code: string)
    ensures '-' !in code && code <= tag
    ensures |code| < |tag| ==> tag[|code|] == '-'
  {
    BeforeFirst(tag, '-')
  }

  /** Extracting twice changes nothing. */
  lemma ExtractLanguageCodeIdempotent(tag: string)
    ensures ExtractLanguageCode(ExtractLanguageCode(tag)) == ExtractLanguageCode(tag)
  {
    BeforeFirstIdempotent(tag, '-');
  }

  // ---------------------------------------------------------------------
  // Display names
  // ---------------------------------------------------------------------

  /** `LANGUAGE_NAMES`: only ever read by key, so a map. */
  const LanguageNames: map<string, string> := map[
    "en" := "English", "en-US" := "English (US)", "en-GB" := "English (UK)",
    "fr" := "French", "fr-FR" := "French (France)", "fr-CA" := "French (Canada)",
    "es" := "Spanish", "es-ES" := "Spanish (Spain)", "es-MX" := "Spanish (Mexico)",
    "de" := "German", "de-DE" := "German (Germany)", "it" := "Italian",
    "it-IT" := "Italian (Italy)", "pt" := "Portuguese", "pt-PT" := "Portuguese (Portugal)",
    "pt-BR" := "Portuguese (Brazil)", "ru" := "Russian", "ru-RU" := "Russian (Russia)",
    "ja" := "Japanese", "ja-JP" := "Japanese (Japan)", "ko" := "Korean",
    "ko-KR" := "Korean (Korea)", "zh" := "Chinese", "zh-CN" := "Chinese (Simplified)",
    "zh-TW" := "Chinese (Traditional)", "ar" := "Arabic", "ar-SA" := "Arabic (Saudi Arabia)",
    "hi" := "Hindi", "hi-IN" := "Hindi (India)", "th" := "Thai",
    "th-TH" := "Thai (Thailand)", "vi" := "Vietnamese", "vi-VN" := "Vietnamese (Vietnam)"
  ]

  /** `LANGUAGE_NAMES[code]`, with `None` for `undefined`. */
  function LanguageName(code: string): (r: Option<string>)
    ensures r.Some? <==> code in LanguageNames
    ensures r.Some? ==> r.value == LanguageNames[code]
  {
    if code in LanguageNames then Some(LanguageNames[code]) else None
  }

  /** `getLanguageDisplayName(code)`: `LANGUAGE_NAMES[code] || code`. */
  function GetLanguageDisplayName(code: string): string {
    match LanguageName(code)
    case Some(name) => if name != "" then name else code
    case None => code
  }

  /** Every listed name is non-empty. */
  lemma NamesNonEmpty()
    ensures forall code | code in LanguageNames :: LanguageNames[code] != ""
  {
  }

  /** A listed code shows its name and any other code shows itself. */
  lemma DisplayNameSpec(code: string)
    ensures code in LanguageNames ==> GetLanguageDisplayName(code) == LanguageNames[code]
    ensures code !in LanguageNames ==> GetLanguageDisplayName(code) == code
  {
    NamesNonEmpty();
  }

  lemma DisplayNameExamples()
    ensures GetLanguageDisplayName("en") == "English"
    ensures GetLanguageDisplayName("zh-TW") == "Chinese (Traditional)"
    ensures GetLanguageDisplayName("xx") == "xx"
  {
    assert LanguageNames["en"] == "English";
    assert LanguageNames["zh-TW"] == "Chinese (Traditional)";
    assert "xx" !in LanguageNames;
  }
}
