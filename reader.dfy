/** The reader page itself (script.js): its globals as the fields of one
    object, `wordTimings` as an array of records rewritten in place, and each
    handler as a method. Every event handler is proved to leave the object in
    the state the matching function of `Playback` computes from the old state,
    and to keep `Valid()`, so the properties proved there hold of the page. */
module ReaderPage {
  import opened Wrappers
  import opened Text
  import opened Pagination
  import opened Timing
  import opened Validation
  import opened Playback

  class Reader {
    var speechAvailable: bool
    var currentBook: Option<Book>
    var currentPage: nat
    var isPlaying: bool
    var isPaused: bool
    var currentUtterance: Option<Utterance>
    var currentWordIndex: nat
    var words: seq<string>
    var currentSpeed: Speed
    var wordTimings: array<WordTiming>
    var highlighting: bool
    var startTime: real
    var pendingAdvances: nat
    var engineCalls: seq<EngineCall>

    /** The globals as a `Session` value. */
    ghost function State(): Session
      reads this, wordTimings
    {
      Session(speechAvailable, currentBook, currentPage, isPlaying, isPaused, currentUtterance,
        currentWordIndex, words, wordTimings[..], currentSpeed, highlighting, startTime,
        pendingAdvances, engineCalls)
    }

    ghost predicate Valid()
      reads this, wordTimings
    {
      Consistent(State())
    }

    /** The globals' initial values, and `initializeApp`'s probe for the
        speech engine. */
    constructor(speechSupported: bool)
      ensures State() == Init(speechSupported) && Valid()
    {
      speechAvailable := speechSupported;
      currentBook := None;
      currentPage := 0;
      isPlaying := false;
      isPaused := false;
      currentUtterance := None;
      currentWordIndex := 0;
      words := [];
      currentSpeed := 1.0;
      wordTimings := new WordTiming[0];
      highlighting := false;
      startTime := 0.0;
      pendingAdvances := 0;
      engineCalls := [];
    }

    // ----------------------------------------------------------------------
    // Pages

    /** The successful branch of `uploadFile` followed by `updateReader`. */
    method LoadBook(filename: string, content: Content, backendTotal: nat)
      requires Valid()
      modifies this
      ensures State() == Load(old(State()), filename, content, backendTotal)
      ensures Valid()
    {
      currentBook := Some(Book(filename, content, backendTotal));
      CreateTableOfContents();
      ShowPage(0);
    }

    /** `createTableOfContents`: the page count replaces `total_pages`. */
    method CreateTableOfContents()
      requires currentBook.Some?
      modifies this
      ensures State() == old(State()).(book := Some(old(currentBook.value).(totalPages := PageCount(old(currentBook.value.content)))))
    {
      var content := currentBook.value.content;
      var totalPages := 0;
      match content {
        case PageArray(pages) =>
          totalPages := |pages|;
        case Plain(text) =>
          var pieces := Split(text, ' ');
          totalPages := (|pieces| + WordsPerPage - 1) / WordsPerPage;
      }
      currentBook := Some(currentBook.value.(totalPages := totalPages));
    }

    /** `showPage`. */
    method ShowPage(p: nat)
      modifies this
      ensures State() == Playback.ShowPage(old(State()), p)
    {
      if currentBook.None? {
        return;
      }
      currentPage := p;
      var pageText := PageText(currentBook.value.content, p);
      words := Tokens(pageText, IsJsSpace);
      currentWordIndex := 0;
      CalculateWordTimings();
    }

    /** `calculateWordTimings`: one window of `0.4 / speed` seconds per word,
        laid end to end from time 0, in a fresh list. */
    method CalculateWordTimings()
      modifies this
      ensures State() == old(State()).(timings := UniformTimings(words, BaseTimePerWord(currentSpeed)))
      ensures fresh(wordTimings)
    {
      var base := BaseTimePerWord(currentSpeed);
      var timings := new WordTiming[|words|];
      var i := 0;
      while i < |words|
        modifies timings
        invariant 0 <= i <= |words|
        invariant forall j :: 0 <= j < i ==>
          timings[j] == WordTiming(j as real * base, (j + 1) as real * base, words[j])
      {
        timings[i] := WordTiming(i as real * base, (i + 1) as real * base, words[i]);
        i := i + 1;
      }
      forall j | 0 <= j < |words|
        ensures timings[..][j] == UniformTimings(words, base)[j]
      {
      }
      assert timings[..] == UniformTimings(words, base);
      wordTimings := timings;
    }

    /** `recalculateWordTimings` at time `now`: a non-empty list is rewritten
        entry by entry at the new speed, re-anchored at the elapsed time from
        the highlighted word on. */
    method RecalculateWordTimings(now: real)
      modifies wordTimings
      ensures wordTimings[..] == (if old(wordTimings.Length) > 0
        then Reanchored(old(wordTimings[..]), currentWordIndex, now - startTime, BaseTimePerWord(currentSpeed))
        else old(wordTimings[..]))
    {
      if wordTimings.Length > 0 {
        ghost var before := wordTimings[..];
        var elapsed := now - startTime;
        var base := BaseTimePerWord(currentSpeed);
        var k := currentWordIndex;
        var i := 0;
        while i < wordTimings.Length
          invariant 0 <= i <= wordTimings.Length
          invariant forall j :: 0 <= j < i ==>
            wordTimings[j] == Reanchored(before, k, elapsed, base)[j]
          invariant forall j :: i <= j < wordTimings.Length ==> wordTimings[j] == before[j]
        {
          var t := wordTimings[i];
          if i < k {
            wordTimings[i] := t.(start := i as real * base, end := (i + 1) as real * base);
          } else {
            wordTimings[i] := t.(start := elapsed + (i - k) as real * base,
                                 end := elapsed + (i - k + 1) as real * base);
          }
          assert wordTimings[i] == ReanchoredEntry(before[i], i, k, elapsed, base);
          i := i + 1;
        }
        forall j | 0 <= j < wordTimings.Length
          ensures wordTimings[..][j] == Reanchored(before, k, elapsed, base)[j]
        {
        }
      }
    }

    /** `nextPage`. */
    method NextPage()
      requires Valid()
      modifies this
      ensures State() == Playback.NextPage(old(State()))
      ensures Valid()
    {
      ghost var s0 := State();
      if currentBook.Some? && (currentPage as int) < currentBook.value.totalPages as int - 1 {
        if isPlaying {
          StopAudio();
        }
        assert State() == StopIfPlaying(s0);
        ShowPage(currentPage + 1);
      }
    }

    /** `previousPage`. */
    method PreviousPage()
      requires Valid()
      modifies this
      ensures State() == Playback.PreviousPage(old(State()))
      ensures Valid()
    {
      ghost var s0 := State();
      if currentBook.Some? && currentPage > 0 {
        if isPlaying {
          StopAudio();
        }
        assert State() == StopIfPlaying(s0);
        ShowPage(currentPage - 1);
      }
    }

    /** `goToPage`, called from a table-of-contents entry. */
    method GoToPage(p: nat)
      requires Valid() && currentBook.Some? && p < currentBook.value.totalPages
      modifies this
      ensures State() == Playback.GoToPage(old(State()), p)
      ensures Valid()
    {
      if isPlaying {
        StopAudio();
      }
      ShowPage(p);
    }

    // ----------------------------------------------------------------------
    // Playback

    /** `toggleAudio`. */
    method ToggleAudio(voices: seq<Voice>, selected: string, now: real)
      requires Valid()
      modifies this
      ensures State() == Toggle(old(State()), voices, selected, now)
      ensures Valid()
    {
      if isPlaying {
        if isPaused {
          ResumeAudio(now);
        } else {
          PauseAudio();
        }
      } else {
        StartAudio(voices, selected);
      }
    }

    /** `startAudio`, given the engine's voice list and the selected voice. */
    method StartAudio(voices: seq<Voice>, selected: string)
      requires Valid()
      modifies this
      ensures State() == Start(old(State()), voices, selected)
      ensures Valid()
    {
      if !speechAvailable || currentBook.None? {
        return;
      }
      var text := SpokenText(words);
      if AllSpace(text, IsJsSpace) {
        return;
      }
      if currentUtterance.Some? {
        engineCalls := engineCalls + [Cancel];
      }
      var u := Utterance(text, PickVoice(voices, selected), "ru-RU", currentSpeed, 1.0);
      currentUtterance := Some(u);
      engineCalls := engineCalls + [Speak(u)];
      isPlaying := true;
      isPaused := false;
    }

    /** `pauseAudio`. */
    method PauseAudio()
      requires Valid()
      modifies this
      ensures State() == Pause(old(State()))
      ensures Valid()
    {
      if speechAvailable && currentUtterance.Some? {
        engineCalls := engineCalls + [PauseSpeech];
        isPaused := true;
        highlighting := false;
      }
    }

    /** `resumeAudio`. */
    method ResumeAudio(now: real)
      requires Valid()
      modifies this
      ensures State() == Resume(old(State()), now)
      ensures Valid()
    {
      if speechAvailable && currentUtterance.Some? && isPaused {
        engineCalls := engineCalls + [ResumeSpeech];
        isPaused := false;
        StartWordHighlighting(now);
      }
    }

    /** `stopAudio`. */
    method StopAudio()
      requires Valid()
      modifies this
      ensures State() == Stop(old(State()))
      ensures Valid()
    {
      if speechAvailable && currentUtterance.Some? {
        engineCalls := engineCalls + [Cancel];
        isPlaying := false;
        isPaused := false;
        currentUtterance := None;
        StopWordHighlighting();
      }
    }

    /** `startWordHighlighting` at time `now`. */
    method StartWordHighlighting(now: real)
      modifies this
      ensures State() == StartHighlighting(old(State()), now)
    {
      startTime := now;
      currentWordIndex := 0;
      highlighting := true;
    }

    /** `stopWordHighlighting`. */
    method StopWordHighlighting()
      modifies this
      ensures State() == old(State()).(ticking := false)
    {
      highlighting := false;
    }

    /** The utterance's `onstart` handler. */
    method OnStart(now: real)
      requires Valid()
      modifies this
      ensures State() == Playback.OnStart(old(State()), now)
      ensures Valid()
    {
      StartWordHighlighting(now);
    }

    /** The utterance's `onend` handler. */
    method OnEnd()
      requires Valid()
      modifies this
      ensures State() == Playback.OnEnd(old(State()))
      ensures Valid()
    {
      var due := currentBook.Some? && AutoNextPage
        && (currentPage as int) < currentBook.value.totalPages as int - 1;
      isPlaying := false;
      isPaused := false;
      currentUtterance := None;
      StopWordHighlighting();
      if due {
        pendingAdvances := pendingAdvances + 1;
      }
    }

    /** The utterance's `onerror` handler. */
    method OnError()
      requires Valid()
      modifies this
      ensures State() == Playback.OnError(old(State()))
      ensures Valid()
    {
      isPlaying := false;
      isPaused := false;
      currentUtterance := None;
      StopWordHighlighting();
    }

    /** A timeout scheduled by `onend` fires. */
    method AutoAdvance(voices: seq<Voice>, selected: string)
      requires Valid() && pendingAdvances > 0
      modifies this
      ensures State() == Playback.AutoAdvance(old(State()), voices, selected)
      ensures Valid()
    {
      ghost var s0 := State();
      pendingAdvances := pendingAdvances - 1;
      assert State() == s0.(pendingAdvances := s0.pendingAdvances - 1);
      NextPage();
      ghost var s1 := State();
      StartAudio(voices, selected);
      assert State() == Start(s1, voices, selected);
    }

    /** The speed slider's `input` handler. */
    method SetSpeed(v: Speed, now: real)
      requires Valid()
      modifies this, wordTimings
      ensures State() == Playback.SetSpeed(old(State()), v, now)
      ensures Valid()
    {
      currentSpeed := v;
      if isPlaying && currentUtterance.Some? {
        currentUtterance := Some(currentUtterance.value.(rate := v));
        RecalculateWordTimings(now);
      }
    }

    /** One run of the highlight interval at time `now`: the linear scan for
        the first window holding the elapsed time, then the stop rule. */
    method Tick(now: real)
      requires Valid()
      modifies this
      ensures State() == Playback.Tick(old(State()), now)
      ensures Valid()
    {
      if highlighting && isPlaying && !isPaused {
        var elapsed := now - startTime;
        var found := false;
        var i := 0;
        while i < wordTimings.Length && !found
          invariant 0 <= i <= wordTimings.Length
          invariant forall j :: 0 <= j < i ==> !Covers(wordTimings[j], elapsed)
          invariant found ==> i < wordTimings.Length && Covers(wordTimings[i], elapsed)
          decreases wordTimings.Length - i, if found then 0 else 1
        {
          if wordTimings[i].start <= elapsed && elapsed < wordTimings[i].end {
            found := true;
          } else {
            i := i + 1;
          }
        }
        if found {
          FirstIsLeast(wordTimings[..], elapsed, i);
          if currentWordIndex != i {
            currentWordIndex := i;
          }
        } else if currentWordIndex as int >= |words| - 1 {
          highlighting := false;
        }
      }
    }
  }
}
