/** The voice registry of the back end (backend/text_to_speech.py): a fixed
    table of three Russian voices, lookup and validation by id, and the
    placeholder speech generator that only estimates a duration. */
module TextToSpeech {
  import opened Wrappers
  import opened Text

  /** One entry of `available_voices`. */
  datatype VoiceInfo = VoiceInfo(id: string, name: string, lang: string, description: string)

  /** The table built by the constructor; it is never changed afterwards. */
  const AvailableVoices: seq<VoiceInfo> := [
    VoiceInfo("default", "По умолчанию", "ru-RU",
      "Стандартный русский голос"),
    VoiceInfo("female", "Женский голос", "ru-RU",
      "Женский русский голос"),
    VoiceInfo("male", "Мужской голос", "ru-RU",
      "Мужской русский голос")
  ]

  /** `get_available_voices`: the three entries, in table order, all for
      Russian. */
  function GetAvailableVoices(): (r: seq<VoiceInfo>)
    ensures |r| == 3
    ensures r[0].id == "default" && r[1].id == "female" && r[2].id == "male"
    ensures forall i :: 0 <= i < |r| ==> r[i].lang == "ru-RU"
  {
    AvailableVoices
  }

  /** `any(v["id"] == voice for v in voices)`. */
  predicate AnyHasId(voices: seq<VoiceInfo>, id: string)
  {
    |voices| > 0 && (voices[0].id == id || AnyHasId(voices[1..], id))
  }

  /** `validate_voice`. */
  function ValidateVoice(voice: string): (ok: bool)
  {
    AnyHasId(AvailableVoices, voice)
  }

  /** `get_voice_info`'s loop: the first entry with the id, or none. */
  function FindVoice(voices: seq<VoiceInfo>, id: string): (r: Option<VoiceInfo>)
    ensures r.Some? ==> exists i :: (0 <= i < |voices| && voices[i] == r.value
      && forall j :: 0 <= j < i ==> voices[j].id != id)
    ensures r.Some? ==> r.value.id == id
    ensures r.None? ==> forall i :: 0 <= i < |voices| ==> voices[i].id != id
  {
    if |voices| == 0 then None
    else if voices[0].id == id then Some(voices[0])
    else
      var r := FindVoice(voices[1..], id);
      assert r.Some? ==> exists i :: (0 <= i < |voices| && voices[i] == r.value
        && forall j :: 0 <= j < i ==> voices[j].id != id) by {
        if r.Some? {
          var i :| 0 <= i < |voices[1..]| && voices[1..][i] == r.value
            && forall j :: 0 <= j < i ==> voices[1..][j].id != id;
          assert voices[i + 1] == r.value;
          forall j | 0 <= j < i + 1 ensures voices[j].id != id {
            if j > 0 {
              assert voices[j] == voices[1..][j - 1];
            }
          }
        }
      }
      r
  }

  /** `get_voice_info`. */
  function GetVoiceInfo(voiceId: string): Option<VoiceInfo>
  {
    FindVoice(AvailableVoices, voiceId)
  }

  /** A voice is valid exactly when it is one of the table's three ids. */
  lemma ValidVoices(voice: string)
    ensures ValidateVoice(voice) <==> voice == "default" || voice == "female" || voice == "male"
  {
    var vs := AvailableVoices;
    assert !AnyHasId(vs[1..][1..][1..], voice) by {
      assert vs[1..][1..][1..] == [];
    }
    assert AnyHasId(vs[1..][1..], voice) <==> voice == "male";
    assert AnyHasId(vs[1..], voice) <==> voice == "female" || voice == "male";
  }

  /** The search succeeds exactly when some entry has the id. */
  lemma {:induction false} AnyHasIdIffFound(voices: seq<VoiceInfo>, id: string)
    ensures AnyHasId(voices, id) <==> FindVoice(voices, id).Some?
    decreases |voices|
  {
    if |voices| > 0 {
      AnyHasIdIffFound(voices[1..], id);
    }
  }

  /** Lookup succeeds exactly for the ids validation accepts, and returns the
      entry with that id. */
  lemma InfoIffValid(voice: string)
    ensures GetVoiceInfo(voice).Some? <==> ValidateVoice(voice)
    ensures GetVoiceInfo(voice).Some? ==> GetVoiceInfo(voice).value.id == voice
  {
    AnyHasIdIffFound(AvailableVoices, voice);
  }

  /** The female voice's entry, and no entry for an unknown id. */
  lemma LookupExamples()
    ensures GetVoiceInfo("female") == Some(AvailableVoices[1])
    ensures GetVoiceInfo("robot") == None
  {
    assert AvailableVoices[1..][1..][1..] == [];
  }

  // ------------------------------------------------------------------------
  // generate_speech

  /** The dictionary `generate_speech` returns. */
  datatype SpeechInfo = SpeechInfo(text: string, voice: string, audioUrl: Option<string>,
                                   duration: real, status: string)

  /** Seconds of speech estimated per word. */
  const SecondsPerWord: real := 0.5

  /** `generate_speech`: the text and voice echoed (the voice is not
      checked), no audio, and half a second per whitespace-separated word. */
  function GenerateSpeech(text: string, voice: string := "default"): (r: SpeechInfo)
    ensures r.text == text && r.voice == voice && r.audioUrl.None? && r.status == "ready"
    ensures r.duration == |Tokens(text, IsPySpace)| as real * SecondsPerWord
  {
    SpeechInfo(text, voice, None, |Tokens(text, IsPySpace)| as real * SecondsPerWord, "ready")
  }

  /** A blank text, and only a blank one, lasts no time. */
  lemma SilenceIffBlank(text: string)
    ensures GenerateSpeech(text).duration == 0.0 <==> AllSpace(text, IsPySpace)
  {
    TokensEmptyIffBlank(text, IsPySpace);
  }

  /** Durations add up when two texts are joined by whitespace. */
  lemma DurationAdds(a: string, c: char, b: string)
    requires IsPySpace(c)
    ensures GenerateSpeech(a + [c] + b).duration == GenerateSpeech(a).duration + GenerateSpeech(b).duration
  {
    TokensAcrossSpace(a, c, b, IsPySpace);
  }

  /** Any voice string is echoed, valid or not. */
  lemma GenerateDoesNotValidate()
    ensures GenerateSpeech("Привет", "robot").voice == "robot"
    ensures !ValidateVoice("robot")
    ensures GenerateSpeech("").voice == "default"
  {
    ValidVoices("robot");
  }
}
