/** The reader page's guards (script.js): the file-extension check made before
    any upload, and the choice of a speech voice. */
module Validation {
  import opened Wrappers
  import opened Text

  /** The extensions the page accepts, with their dot. */
  const AllowedFormats: seq<string> := [".pdf", ".epub", ".fb2", ".txt"]

  /** `file.name.toLowerCase().substring(file.name.lastIndexOf('.'))`: the
      lower-cased tail from the last dot; with no dot, `lastIndexOf` is -1,
      which `substring` clamps to 0, so the whole lower-cased name. */
  function FileExtension(name: string): string
  {
    var i := LastIndexOf(name, '.');
    ToLower(name)[if i < 0 then 0 else i..]
  }

  /** `handleFile`'s check: the extension is one of the four allowed ones.
      Since each allowed extension starts with its only dot, this is the same
      as "the lower-cased name ends with `.pdf`, `.epub`, `.fb2` or `.txt`". */
  function IsSupportedFile(name: string): (ok: bool)
    ensures ok <==> exists ext :: ext in AllowedFormats && EndsWith(ToLower(name), ext)
  {
    var ok := FileExtension(name) in AllowedFormats;
    SupportedIffEndsWith(name);
    ok
  }

  predicate EndsWith(s: string, suffix: string) {
    |suffix| <= |s| && s[|s| - |suffix|..] == suffix
  }

  lemma SupportedIffEndsWith(name: string)
    ensures FileExtension(name) in AllowedFormats
      <==> exists ext :: ext in AllowedFormats && EndsWith(ToLower(name), ext)
  {
    if FileExtension(name) in AllowedFormats {
      assert EndsWith(ToLower(name), FileExtension(name));
    }
    if ext :| ext in AllowedFormats && EndsWith(ToLower(name), ext) {
      AllowedAreDotExtensions(ext);
      EndsWithDotExtension(name, ext);
    }
  }

  /** `ext` is a dot followed by at least one character, none of them a dot. */
  predicate IsDotExtension(ext: string) {
    |ext| >= 2 && ext[0] == '.' && forall m :: 1 <= m < |ext| ==> ext[m] != '.'
  }

  lemma AllowedAreDotExtensions(ext: string)
    requires ext in AllowedFormats
    ensures IsDotExtension(ext)
  {
    assert ext == ".pdf" || ext == ".epub" || ext == ".fb2" || ext == ".txt";
  }

  /** A name whose lower-cased form ends with a dot extension has exactly that
      extension. */
  lemma EndsWithDotExtension(name: string, ext: string)
    requires IsDotExtension(ext) && EndsWith(ToLower(name), ext)
    ensures FileExtension(name) == ext
  {
    var low := ToLower(name);
    var j := |name| - |ext|;
    assert low[j..] == ext;
    assert low[j] == ext[0];
    assert name[j] == '.';
    forall m | j < m < |name| ensures name[m] != '.' {
      assert low[m] == ext[m - j];
    }
    LastIndexOfIs(name, '.', j);
  }

  lemma LastIndexOfIs(s: string, c: char, i: nat)
    requires i < |s| && s[i] == c
    requires forall m :: i < m < |s| ==> s[m] != c
    ensures LastIndexOf(s, c) == i
  {
  }

  /** What `handleFile` does with a chosen file: upload it, or reject it with
      an alert before any request is made. */
  datatype FileDecision = Upload(name: string) | Reject

  function HandleFile(name: string): (d: FileDecision)
    ensures d.Upload? <==> IsSupportedFile(name)
    ensures d.Upload? ==> d.name == name
  {
    if !IsSupportedFile(name) then Reject else Upload(name)
  }

  /** The check is case-insensitive: an upper-case extension is accepted. */
  lemma UpperCaseAccepted()
    ensures HandleFile("Book.PDF") == Upload("Book.PDF")
  {
    assert ToLower("Book.PDF")[4..] == ".pdf";
    assert EndsWith(ToLower("Book.PDF"), ".pdf");
  }

  /** Only the text after the last dot counts: a `.zip` holding a `.txt` name
      is rejected. */
  lemma LastExtensionDecides()
    ensures HandleFile("archive.txt.zip") == Reject
  {
    LastIndexOfIs("archive.txt.zip", '.', 11);
    assert FileExtension("archive.txt.zip") == ToLower("archive.txt.zip")[11..];
    assert ToLower("archive.txt.zip")[11..] == ".zip";
  }

  /** A name without a dot is compared whole, so "pdf" is rejected. */
  lemma NoDotRejected()
    ensures HandleFile("pdf") == Reject
  {
    assert '.' !in "pdf";
    assert FileExtension("pdf") == ToLower("pdf");
    assert ToLower("pdf") == "pdf";
  }

  // ------------------------------------------------------------------------
  // Voice choice

  /** A voice the browser's speech engine offers. */
  datatype Voice = Voice(name: string, lang: string)

  /** `v.name.includes(selected) || v.lang.includes('ru')`. */
  predicate VoiceMatches(v: Voice, selected: string) {
    Contains(v.name, selected) || Contains(v.lang, "ru")
  }

  /** `voices.find(...)`: the index of the first matching voice. */
  function FirstMatch(voices: seq<Voice>, selected: string): (r: Option<nat>)
    ensures r.Some? ==> r.value < |voices| && VoiceMatches(voices[r.value], selected)
    ensures r.Some? ==> forall j :: 0 <= j < r.value ==> !VoiceMatches(voices[j], selected)
    ensures r.None? ==> forall j :: 0 <= j < |voices| ==> !VoiceMatches(voices[j], selected)
  {
    if |voices| == 0 then None
    else if VoiceMatches(voices[0], selected) then Some(0)
    else match FirstMatch(voices[1..], selected)
      case None => None
      case Some(i) => Some(i + 1)
  }

  /** The voice `startAudio` puts on the utterance: none (the engine's
      default) when "default" is selected or nothing matches, else the first
      voice whose name contains the selection or whose language contains
      "ru". */
  function PickVoice(voices: seq<Voice>, selected: string): (r: Option<Voice>)
    ensures selected == "default" ==> r.None?
    ensures r.Some? ==> exists i :: (0 <= i < |voices| && voices[i] == r.value
      && VoiceMatches(voices[i], selected)
      && forall j :: 0 <= j < i ==> !VoiceMatches(voices[j], selected))
    ensures r.None? && selected != "default" ==>
      forall j :: 0 <= j < |voices| ==> !VoiceMatches(voices[j], selected)
  {
    if selected == "default" then None
    else match FirstMatch(voices, selected)
      case None => None
      case Some(i) => Some(voices[i])
  }

  /** The language test makes any Russian voice win over a later voice whose
      name is the one selected. */
  lemma RussianVoiceWins()
    ensures PickVoice([Voice("Yuri", "ru-RU"), Voice("Milena", "ru-RU")], "Milena")
      == Some(Voice("Yuri", "ru-RU"))
  {
    assert "ru" <= "ru-RU";
    assert Contains("ru-RU", "ru");
  }
}
