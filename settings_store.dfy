/**
 * The settings store: the text-to-speech provider and the voice chosen per
 * language tag, with the three-tier lookup of a stored voice for a tag, the
 * merge of saved settings on load, and the voice `speakText` hands to the
 * engine.
 */
module SettingsStore {
  import opened Wrappers
  import opened Strings
  import opened OrderedMap
  import opened Tts

  /** `webVoices`: language tag to voice id, in insertion order. */
  type WebVoices = seq<(string, string)>

  /** A voice id the lookup accepts in its first two tiers: `if (voiceId)` on a string. */
  predicate Truthy(v: Option<string>) {
    v.Some? && v.value != ""
  }

  /** The value of the first entry, in insertion order, whose tag starts with `prefix`. */
  function FirstWithPrefix(voices: WebVoices, prefix: string): (r: Option<string>)
    ensures r.Some? ==> exists k :: FirstPrefixed(voices, prefix, k) && r.value == voices[k].1
    ensures r.None? <==> forall k :: 0 <= k < |voices| ==> !StartsWith(voices[k].0, prefix)
  {
    if voices == [] then None
    else if StartsWith(voices[0].0, prefix) then
      assert FirstPrefixed(voices, prefix, 0);
      Some(voices[0].1)
    else
      var r := FirstWithPrefix(voices[1..], prefix);
      assert forall k :: 0 <= k < |voices| - 1 ==> voices[1..][k] == voices[k + 1];
      if r.Some? then
        FirstPrefixedTail(voices, prefix, r.value);
        r
      else r
  }

  /** The first match among the later entries is the first match overall when entry 0 does not match. */
  lemma FirstPrefixedTail(voices: WebVoices, prefix: string, v: string)
    requires voices != [] && !StartsWith(voices[0].0, prefix)
    requires exists k :: FirstPrefixed(voices[1..], prefix, k) && v == voices[1..][k].1
    ensures exists k :: FirstPrefixed(voices, prefix, k) && v == voices[k].1
  {
    var k :| FirstPrefixed(voices[1..], prefix, k) && v == voices[1..][k].1;
    assert forall j :: 0 <= j < |voices| - 1 ==> voices[1..][j] == voices[j + 1];
    assert FirstPrefixed(voices, prefix, k + 1);
  }

  /** Entry `k` is the first, in insertion order, whose tag starts with `prefix`. */
  ghost predicate FirstPrefixed(voices: WebVoices, prefix: string, k: int) {
    && 0 <= k < |voices| && StartsWith(voices[k].0, prefix)
    && forall j :: 0 <= j < k ==> !StartsWith(voices[j].0, prefix)
  }

  /**
   * `getWebVoiceForLanguage`: the non-empty voice stored for the tag; else
   * the non-empty voice stored for its base code; else the voice of the
   * first stored tag that starts with the base code and a dash, empty or not.
   */
  function WebVoiceFor(voices: WebVoices, lang: string): (r: Option<string>)
    ensures Truthy(Get(voices, lang)) ==> r == Get(voices, lang)
    ensures !Truthy(Get(voices, lang)) && Truthy(Get(voices, BaseCode(lang))) ==> r == Get(voices, BaseCode(lang))
    ensures !Truthy(Get(voices, lang)) && !Truthy(Get(voices, BaseCode(lang))) ==>
      r == FirstWithPrefix(voices, BaseCode(lang) + "-")
    ensures r.None? <==> (!Truthy(Get(voices, lang)) && !Truthy(Get(voices, BaseCode(lang))) &&
      forall k :: 0 <= k < |voices| ==> !StartsWith(voices[k].0, BaseCode(lang) + "-"))
  {
    if Truthy(Get(voices, lang)) then Get(voices, lang)
    else if Truthy(Get(voices, BaseCode(lang))) then Get(voices, BaseCode(lang))
    else FirstWithPrefix(voices, BaseCode(lang) + "-")
  }

  /** `voiceId || getWebVoiceForLanguage(lang)`: an explicit, non-empty voice wins. */
  function SelectedVoice(voices: WebVoices, lang: string, voiceId: Option<string>): (r: Option<string>)
    ensures Truthy(voiceId) ==> r == voiceId
    ensures !Truthy(voiceId) ==> r == WebVoiceFor(voices, lang)
  {
    if Truthy(voiceId) then voiceId else WebVoiceFor(voices, lang)
  }

  /** What `speakText` asks the engine to say. */
  datatype SpeechRequest = SpeechRequest(text: string, lang: string, voiceId: Option<string>)

  /** The `Partial<SettingsState>` that `loadSettings` reads back; `None` for a missing property. */
  datatype SavedSettings = SavedSettings(ttsProvider: Option<string>, webVoices: Option<WebVoices>)

  /** The plain object `saveSettings` writes. */
  datatype SettingsRecord = SettingsRecord(ttsProvider: string, webVoices: WebVoices, googleApiKey: string)

  class Settings {
    var ttsProvider: string
    var webVoices: WebVoices
    var error: Option<string>

    constructor()
      ensures ttsProvider == "WebSpeech" && webVoices == [] && error == None
    {
      ttsProvider := "WebSpeech";
      webVoices := [];
      error := None;
    }

    /**
     * `loadSettings`: each saved property that is present (and, for the
     * provider, non-empty) replaces the current one; a failed load keeps
     * both and records its message.
     */
    method LoadSettings(loaded: Result<SavedSettings, string>)
      modifies this
      ensures loaded.Ok? ==> (error == None
        && ttsProvider == (if Truthy(loaded.value.ttsProvider) then loaded.value.ttsProvider.value else old(ttsProvider))
        && webVoices == (if loaded.value.webVoices.Some? then loaded.value.webVoices.value else old(webVoices)))
      ensures loaded.Err? ==> ttsProvider == old(ttsProvider) && webVoices == old(webVoices) && error == Some(loaded.error)
    {
      error := None;
      match loaded
      case Ok(saved) =>
        if Truthy(saved.ttsProvider) {
          ttsProvider := saved.ttsProvider.value;
        }
        if saved.webVoices.Some? {
          webVoices := saved.webVoices.value;
        }
      case Err(message) =>
        error := Some(message);
    }

    /** `saveSettings`: the record written; `saveFailure` is the message of a failed save. */
    method SaveSettings(saveFailure: Option<string>) returns (record: SettingsRecord)
      modifies this
      ensures record == SettingsRecord(ttsProvider, webVoices, "")
      ensures ttsProvider == old(ttsProvider) && webVoices == old(webVoices)
      ensures error == if saveFailure.Some? then saveFailure else old(error)
    {
      record := SettingsRecord(ttsProvider, webVoices, "");
      if saveFailure.Some? {
        error := saveFailure;
      }
    }

    method SetTtsProvider(provider: string)
      modifies this
      ensures ttsProvider == provider && webVoices == old(webVoices) && error == old(error)
    {
      ttsProvider := provider;
    }

    /** `setWebVoice`: only the entry of `lang` changes. */
    method SetWebVoice(lang: string, voiceId: string)
      modifies this
      ensures webVoices == Put(old(webVoices), lang, voiceId)
      ensures ttsProvider == old(ttsProvider) && error == old(error)
    {
      webVoices := Put(webVoices, lang, voiceId);
    }

    /** `getWebVoiceForLanguage`, the third tier as the source's early-return loop over the entries. */
    method GetWebVoiceForLanguage(lang: string) returns (r: Option<string>)
      ensures r == WebVoiceFor(webVoices, lang)
    {
      r := Get(webVoices, lang);
      if Truthy(r) { return; }
      var code := BaseCode(lang);
      r := Get(webVoices, code);
      if Truthy(r) { return; }
      var i := 0;
      while i < |webVoices|
        invariant 0 <= i <= |webVoices|
        invariant FirstWithPrefix(webVoices, code + "-") == FirstWithPrefix(webVoices[i..], code + "-")
      {
        if StartsWith(webVoices[i].0, code + "-") {
          return Some(webVoices[i].1);
        }
        assert webVoices[i..][1..] == webVoices[i + 1..];
        i := i + 1;
      }
      r := None;
    }

    /**
     * `speakText` up to the engine call: no engine for the provider is the
     * `TTS engine not available` error; otherwise the text, the tag and the
     * selected voice go to the engine.
     */
    function SpeakText(text: string, lang: string, voiceId: Option<string>): (r: Result<SpeechRequest, string>)
      reads this
      ensures r.Err? <==> CreateTtsEngine(ttsProvider).Err?
      ensures r.Err? ==> r.error == "TTS engine not available"
      ensures r.Ok? ==> r.value == SpeechRequest(text, lang, SelectedVoice(webVoices, lang, voiceId))
    {
      if CreateTtsEngine(ttsProvider).Err? then Err("TTS engine not available")
      else Ok(SpeechRequest(text, lang, SelectedVoice(webVoices, lang, voiceId)))
    }

    method ClearError()
      modifies this
      ensures ttsProvider == old(ttsProvider) && webVoices == old(webVoices) && error == None
    {
      error := None;
    }

    method Reset()
      modifies this
      ensures ttsProvider == "WebSpeech" && webVoices == [] && error == None
    {
      ttsProvider := "WebSpeech";
      webVoices := [];
      error := None;
    }
  }

  // ---------------------------------------------------------------------
  // Laws
  // ---------------------------------------------------------------------

  /** A non-empty voice set for a tag is the one the lookup returns for that tag. */
  lemma SetThenLookup(voices: WebVoices, lang: string, voiceId: string)
    requires voiceId != ""
    ensures WebVoiceFor(Put(voices, lang, voiceId), lang) == Some(voiceId)
  {
  }

  /** Setting the voice of one tag leaves the first two tiers of every other tag as they were. */
  lemma SetLeavesOthers(voices: WebVoices, lang: string, voiceId: string, other: string)
    requires other != lang && BaseCode(other) != lang
    ensures Get(Put(voices, lang, voiceId), other) == Get(voices, other)
    ensures Get(Put(voices, lang, voiceId), BaseCode(other)) == Get(voices, BaseCode(other))
  {
  }

  /** A regional tag with no voice of its own falls back to the voice of its base code. */
  lemma RegionFallsBackToBase(voices: WebVoices, region: string, base: string, voiceId: string)
    requires '-' !in base && voiceId != ""
    requires Get(voices, base + "-" + region).None? && Get(voices, base) == Some(voiceId)
    ensures WebVoiceFor(voices, base + "-" + region) == Some(voiceId)
  {
    BeforeFirstOfJoined(base, '-', region);
    assert base + "-" + region == base + ['-'] + region;
  }

  /** After `reset` no tag has a voice, and an explicit voice is still used as given. */
  lemma ResetLookup(lang: string, voiceId: Option<string>)
    ensures WebVoiceFor([], lang).None?
    ensures SelectedVoice([], lang, voiceId) == if Truthy(voiceId) then voiceId else None
  {
  }

  /** The default provider is one the factory builds, so a fresh or reset store can speak. */
  lemma DefaultProviderSpeaks()
    ensures CreateTtsEngine("WebSpeech").Ok?
    ensures "WebSpeech" in GetAvailableProviders()
  {
  }
}
