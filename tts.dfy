/**
 * Voice selection for text-to-speech: the language-tag table, the choice of
 * a browser voice for a tag, the default voice of a voice list, the voice
 * list filter, and the engine factory. The speech engine itself (utterances,
 * its queue and timers) is not part of this model.
 */
module Tts {
  import opened Wrappers
  import opened Seqs
  import opened Strings

  /** A browser `SpeechSynthesisVoice`, reduced to the fields read here. */
  datatype Voice = Voice(name: string, lang: string, voiceUri: string)

  /** `VoiceInfo`: what the application keeps of a voice. */
  datatype VoiceInfo = VoiceInfo(name: string, lang: string, id: string)

  // ---------------------------------------------------------------------
  // Language tags
  // ---------------------------------------------------------------------

  /** `langMap` of `normalizeLanguageCode`: lower-case tag to full tag. */
  const LangTable: map<string, string> := map[
    "ja" := "ja-JP", "zh" := "zh-CN", "zh-cn" := "zh-CN", "zh-tw" := "zh-TW",
    "en" := "en-US", "fr" := "fr-FR", "de" := "de-DE", "es" := "es-ES",
    "it" := "it-IT", "pt" := "pt-PT", "ru" := "ru-RU", "ko" := "ko-KR",
    "ar" := "ar-SA"]

  /** `normalizeLanguageCode`: the table's tag for the lower-cased input, else the input as given. */
  function NormalizeLanguageCode(lang: string): (r: string)
    ensures ToLower(lang) in LangTable ==> r == LangTable[ToLower(lang)]
    ensures ToLower(lang) !in LangTable ==> r == lang
  {
    var lower := ToLower(lang);
    if lower in LangTable then LangTable[lower] else lang
  }

  /** `lang.split('-')[0]`. */
  function BaseCode(lang: string): (r: string)
    ensures StartsWith(lang, r) && '-' !in r
  {
    BeforeFirst(lang, '-')
  }

  // ---------------------------------------------------------------------
  // The best browser voice for a tag
  // ---------------------------------------------------------------------

  /** `similarMap`: the languages tried, in order, when no voice of the language itself exists. */
  const SimilarTable: map<string, seq<string>> := map[
    "ja" := ["zh", "ko"], "zh" := ["ja", "ko"], "ko" := ["ja", "zh"],
    "fr" := ["es", "it"], "es" := ["fr", "it"], "it" := ["fr", "es"]]

  /** The similar languages of a base code, none when the table has no entry. */
  function Similar(code: string): seq<string> {
    if code in SimilarTable then SimilarTable[code] else []
  }

  /** `v => v.lang === lang`. */
  function IsLang(lang: string): Voice -> bool {
    (v: Voice) => v.lang == lang
  }

  /** `v => v.lang.startsWith(prefix)`. */
  function LangStarts(prefix: string): Voice -> bool {
    (v: Voice) => StartsWith(v.lang, prefix)
  }

  /** No voice's tag starts with `prefix`. */
  ghost predicate Unmatched(voices: seq<Voice>, prefix: string) {
    forall k :: 0 <= k < |voices| ==> !StartsWith(voices[k].lang, prefix)
  }

  /**
   * `langs[j]` is the first of `langs` that some voice's tag starts with,
   * and `voices[i]` is the first such voice.
   */
  ghost predicate SimilarAt(voices: seq<Voice>, langs: seq<string>, j: int, i: int) {
    && 0 <= j < |langs|
    && (forall l :: 0 <= l < j ==> Unmatched(voices, langs[l]))
    && IsFirst(voices, LangStarts(langs[j]), i)
  }

  /** The first voice of the first of `langs` that has one. */
  function FirstSimilar(voices: seq<Voice>, langs: seq<string>): (r: Option<Voice>)
    ensures r.Some? ==> exists j, i :: SimilarAt(voices, langs, j, i) && r.value == voices[i]
    ensures r.None? <==> forall j, k :: 0 <= j < |langs| && 0 <= k < |voices| ==> !StartsWith(voices[k].lang, langs[j])
  {
    if langs == [] then None
    else match Find(voices, LangStarts(langs[0]))
         case Some(v) =>
           SimilarHead(voices, langs, v);
           Some(v)
         case None =>
           var r := FirstSimilar(voices, langs[1..]);
           assert forall j :: 0 <= j < |langs[1..]| ==> langs[1..][j] == langs[j + 1];
           if r.Some? then
             SimilarTail(voices, langs, r.value);
             r
           else r
  }

  /** A voice found for the first language is the similar-tier choice. */
  lemma SimilarHead(voices: seq<Voice>, langs: seq<string>, v: Voice)
    requires langs != [] && exists i :: IsFirst(voices, LangStarts(langs[0]), i) && v == voices[i]
    ensures exists j, i :: SimilarAt(voices, langs, j, i) && v == voices[i]
  {
    var i :| IsFirst(voices, LangStarts(langs[0]), i) && v == voices[i];
    assert SimilarAt(voices, langs, 0, i);
  }

  /** When the first language has no voice, the choice among the others is the choice among all. */
  lemma SimilarTail(voices: seq<Voice>, langs: seq<string>, v: Voice)
    requires langs != [] && Unmatched(voices, langs[0])
    requires exists j, i :: SimilarAt(voices, langs[1..], j, i) && v == voices[i]
    ensures exists j, i :: SimilarAt(voices, langs, j, i) && v == voices[i]
  {
    var j, i :| SimilarAt(voices, langs[1..], j, i) && v == voices[i];
    assert forall l :: 0 <= l < |langs| - 1 ==> langs[1..][l] == langs[l + 1];
    assert SimilarAt(voices, langs, j + 1, i);
  }

  /**
   * `findBestVoiceForLanguage`: the first voice of exactly `lang`; else the
   * first voice whose tag starts with the base code; else the first voice
   * of the first similar language, in the table's order, that has one; else
   * the first voice.
   */
  function BestVoice(voices: seq<Voice>, lang: string): (r: Option<Voice>)
    ensures r.None? <==> voices == []
    ensures r.Some? ==> r.value in voices
    ensures (exists k :: 0 <= k < |voices| && voices[k].lang == lang) ==>
            exists i :: IsFirst(voices, IsLang(lang), i) && r == Some(voices[i])
    ensures (forall k :: 0 <= k < |voices| ==> voices[k].lang != lang) &&
            (exists k :: 0 <= k < |voices| && StartsWith(voices[k].lang, BaseCode(lang))) ==>
            exists i :: IsFirst(voices, LangStarts(BaseCode(lang)), i) && r == Some(voices[i])
    ensures Unmatched(voices, BaseCode(lang)) &&
            (exists j, k :: 0 <= j < |Similar(BaseCode(lang))| && 0 <= k < |voices| &&
                            StartsWith(voices[k].lang, Similar(BaseCode(lang))[j])) ==>
            exists j, i :: SimilarAt(voices, Similar(BaseCode(lang)), j, i) && r == Some(voices[i])
    ensures Unmatched(voices, BaseCode(lang)) &&
            (forall j :: 0 <= j < |Similar(BaseCode(lang))| ==> Unmatched(voices, Similar(BaseCode(lang))[j])) &&
            voices != [] ==>
            r == Some(voices[0])
  {
    match Find(voices, IsLang(lang))
    case Some(v) => Some(v)
    case None =>
      match Find(voices, LangStarts(BaseCode(lang)))
      case Some(v) => Some(v)
      case None =>
        match FirstSimilar(voices, Similar(BaseCode(lang)))
        case Some(v) => Some(v)
        case None => if voices != [] then Some(voices[0]) else None
  }

  /** The same choice, with the similar-language tier as the source's early-return loop. */
  method FindBestVoiceForLanguage(voices: seq<Voice>, lang: string) returns (r: Option<Voice>)
    ensures r == BestVoice(voices, lang)
  {
    r := Find(voices, IsLang(lang));
    if r.Some? { return; }
    var code := BaseCode(lang);
    r := Find(voices, LangStarts(code));
    if r.Some? { return; }
    var similar := Similar(code);
    var i := 0;
    while i < |similar|
      invariant 0 <= i <= |similar|
      invariant FirstSimilar(voices, similar) == FirstSimilar(voices, similar[i..])
    {
      r := Find(voices, LangStarts(similar[i]));
      if r.Some? {
        return;
      }
      assert similar[i..][1..] == similar[i + 1..];
      i := i + 1;
    }
    r := if |voices| > 0 then Some(voices[0]) else None;
  }

  // ---------------------------------------------------------------------
  // The default voice of a voice list
  // ---------------------------------------------------------------------

  /** `v => v.lang === lang` on the application's voices. */
  function InfoIsLang(lang: string): VoiceInfo -> bool {
    (v: VoiceInfo) => v.lang == lang
  }

  /** `v => v.lang.startsWith(prefix)` on the application's voices. */
  function InfoLangStarts(prefix: string): VoiceInfo -> bool {
    (v: VoiceInfo) => StartsWith(v.lang, prefix)
  }

  /**
   * `getDefaultVoiceForLanguage`: the first voice of exactly `lang`, else
   * the first whose tag starts with the base code, else the first voice.
   */
  function DefaultVoice(voices: seq<VoiceInfo>, lang: string): (r: Option<VoiceInfo>)
    ensures r.None? <==> voices == []
    ensures r.Some? ==> r.value in voices
    ensures (exists k :: 0 <= k < |voices| && voices[k].lang == lang) ==>
            exists i :: IsFirst(voices, InfoIsLang(lang), i) && r == Some(voices[i])
    ensures (forall k :: 0 <= k < |voices| ==> voices[k].lang != lang) &&
            (exists k :: 0 <= k < |voices| && StartsWith(voices[k].lang, BaseCode(lang))) ==>
            exists i :: IsFirst(voices, InfoLangStarts(BaseCode(lang)), i) && r == Some(voices[i])
    ensures (forall k :: 0 <= k < |voices| ==> !StartsWith(voices[k].lang, BaseCode(lang))) && voices != [] ==>
            r == Some(voices[0])
  {
    match Find(voices, InfoIsLang(lang))
    case Some(v) => Some(v)
    case None =>
      match Find(voices, InfoLangStarts(BaseCode(lang)))
      case Some(v) => Some(v)
      case None => if voices != [] then Some(voices[0]) else None
  }

  // ---------------------------------------------------------------------
  // The voice list filter
  // ---------------------------------------------------------------------

  /** `{ name: voice.name, lang: voice.lang, id: voice.voiceURI }`. */
  function ToInfo(v: Voice): VoiceInfo {
    VoiceInfo(v.name, v.lang, v.voiceUri)
  }

  /** The voices `filterVoices` keeps: all when `lang` is absent or empty. */
  predicate Wanted(lang: Option<string>, v: Voice) {
    lang.None? || lang.value == "" || v.lang == lang.value || StartsWith(v.lang, BaseCode(lang.value))
  }

  /** `Wanted` as the `filter` callback. */
  function WantedBy(lang: Option<string>): Voice -> bool {
    (v: Voice) => Wanted(lang, v)
  }

  /**
   * `filterVoices` without its final sort: the kept voices, in list order,
   * as `VoiceInfo`; every wanted voice is there and nothing else.
   */
  function FilterVoices(voices: seq<Voice>, lang: Option<string>): (r: seq<VoiceInfo>)
    ensures r == Infos(Filter(voices, WantedBy(lang)))
  {
    if voices == [] then []
    else
      var rest := FilterVoices(voices[1..], lang);
      FilterCons(voices, WantedBy(lang));
      InfosCons(voices[0], Filter(voices[1..], WantedBy(lang)));
      if Wanted(lang, voices[0]) then [ToInfo(voices[0])] + rest else rest
  }

  /** Every wanted voice is kept, as `VoiceInfo`, and nothing else is. */
  lemma FilterVoicesSpec(voices: seq<Voice>, lang: Option<string>)
    ensures |FilterVoices(voices, lang)| <= |voices|
    ensures forall k :: 0 <= k < |FilterVoices(voices, lang)| ==>
      exists m :: 0 <= m < |voices| && Wanted(lang, voices[m]) && FilterVoices(voices, lang)[k] == ToInfo(voices[m])
    ensures forall m :: 0 <= m < |voices| && Wanted(lang, voices[m]) ==> ToInfo(voices[m]) in FilterVoices(voices, lang)
  {
    var p, r := WantedBy(lang), FilterVoices(voices, lang);
    InfosOfFilter(voices, p);
    forall k | 0 <= k < |r|
      ensures exists m :: 0 <= m < |voices| && Wanted(lang, voices[m]) && r[k] == ToInfo(voices[m])
    {
      var m :| 0 <= m < |voices| && p(voices[m]) && r[k] == ToInfo(voices[m]);
      assert Wanted(lang, voices[m]);
    }
  }

  /** Converting a list with a voice in front puts its conversion in front. */
  lemma InfosCons(v: Voice, voices: seq<Voice>)
    ensures Infos([v] + voices) == [ToInfo(v)] + Infos(voices)
  {
    assert forall k :: 1 <= k <= |voices| ==> ([v] + voices)[k] == voices[k - 1];
  }

  /** The converted filter holds the conversion of each kept voice and nothing else. */
  lemma InfosOfFilter(voices: seq<Voice>, p: Voice -> bool)
    ensures |Infos(Filter(voices, p))| <= |voices|
    ensures forall k :: 0 <= k < |Infos(Filter(voices, p))| ==>
      exists m :: 0 <= m < |voices| && p(voices[m]) && Infos(Filter(voices, p))[k] == ToInfo(voices[m])
    ensures forall m :: 0 <= m < |voices| && p(voices[m]) ==> ToInfo(voices[m]) in Infos(Filter(voices, p))
  {
    var kept := Filter(voices, p);
    var r := Infos(kept);
    forall k | 0 <= k < |r|
      ensures exists m :: 0 <= m < |voices| && p(voices[m]) && r[k] == ToInfo(voices[m])
    {
      assert kept[k] in voices && p(kept[k]);
      var m :| 0 <= m < |voices| && voices[m] == kept[k];
      assert 0 <= m < |voices| && p(voices[m]) && r[k] == ToInfo(voices[m]);
    }
    assert forall k :: 0 <= k < |r| ==> exists m :: 0 <= m < |voices| && p(voices[m]) && r[k] == ToInfo(voices[m]);
    forall m | 0 <= m < |voices| && p(voices[m])
      ensures ToInfo(voices[m]) in r
    {
      var k :| 0 <= k < |kept| && kept[k] == voices[m];
      assert r[k] == ToInfo(voices[m]);
    }
  }

  /** A voice of exactly the tag also starts with its base code: the filter is the prefix test. */
  lemma WantedIsPrefix(lang: string, v: Voice)
    requires lang != ""
    ensures Wanted(Some(lang), v) <==> StartsWith(v.lang, BaseCode(lang))
  {
    var code := BaseCode(lang);
    if v.lang == lang {
      assert v.lang[..|code|] == lang[..|code|];
    }
  }

  // ---------------------------------------------------------------------
  // Engines
  // ---------------------------------------------------------------------

  /** The one engine there is. */
  datatype Engine = WebSpeechEngine

  /** `createTtsEngine`: the Web Speech engine, or the `Unknown TTS provider` error. */
  function CreateTtsEngine(provider: string): (r: Result<Engine, string>)
    ensures r.Ok? <==> provider == "WebSpeech"
    ensures r.Err? ==> r.error == "Unknown TTS provider: " + provider
  {
    if provider == "WebSpeech" then Ok(WebSpeechEngine)
    else Err("Unknown TTS provider: " + provider)
  }

  /** `getAvailableProviders`. */
  function GetAvailableProviders(): (ps: seq<string>)
    ensures |ps| == 1
  {
    ["WebSpeech"]
  }

  /** The providers offered are exactly the ones the factory can build. */
  lemma ProvidersCreatable(provider: string)
    ensures CreateTtsEngine(provider).Ok? <==> provider in GetAvailableProviders()
  {
  }

  // ---------------------------------------------------------------------
  // Laws
  // ---------------------------------------------------------------------

  /** Normalizing a tag twice is normalizing it once. */
  lemma NormalizeIdempotent(lang: string)
    ensures NormalizeLanguageCode(NormalizeLanguageCode(lang)) == NormalizeLanguageCode(lang)
  {
    var lower := ToLower(lang);
    if lower in LangTable {
      var r := LangTable[lower];
      var rl := ToLower(r);
      assert |rl| == 5;
      if rl in LangTable {
        assert rl == "zh-cn" || rl == "zh-tw";
        assert rl[3] == LowerChar(r[3]) && rl[4] == LowerChar(r[4]);
      }
    }
  }

  /** `Find` on the converted list finds the conversion of what `Find` finds on the original. */
  lemma {:induction false} FindInfo(voices: seq<Voice>, p: Voice -> bool, q: VoiceInfo -> bool)
    requires forall v :: q(ToInfo(v)) == p(v)
    ensures Find(Infos(voices), q) == (match Find(voices, p) case None => None case Some(v) => Some(ToInfo(v)))
  {
    if voices != [] {
      FindInfo(voices[1..], p, q);
      assert Infos(voices)[1..] == Infos(voices[1..]);
      assert FindIndex(voices, p) == if p(voices[0]) then Some(0) else
        (match FindIndex(voices[1..], p) case None => None case Some(i) => Some(i + 1));
    }
  }

  /** Every voice of the list as `VoiceInfo`. */
  function Infos(voices: seq<Voice>): (r: seq<VoiceInfo>)
    ensures |r| == |voices| && forall k :: 0 <= k < |voices| ==> r[k] == ToInfo(voices[k])
  {
    seq(|voices|, k requires 0 <= k < |voices| => ToInfo(voices[k]))
  }

  /**
   * The default voice and the best voice agree on a tag whose base code has
   * no similar languages: they differ only in that tier.
   */
  lemma DefaultAgreesWithBest(voices: seq<Voice>, lang: string)
    requires Similar(BaseCode(lang)) == []
    ensures DefaultVoice(Infos(voices), lang) ==
      (match BestVoice(voices, lang) case None => None case Some(v) => Some(ToInfo(v)))
  {
    FindInfo(voices, IsLang(lang), InfoIsLang(lang));
    FindInfo(voices, LangStarts(BaseCode(lang)), InfoLangStarts(BaseCode(lang)));
  }
}
