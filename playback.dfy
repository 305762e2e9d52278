/** The reader page's playback state machine (script.js), stated on values: the
    page globals as one `Session` record, and every handler as a function from
    the old session to the new one. The class in reader.dfy implements these
    functions on mutable fields and an array of timings. */
module Playback {
  import opened Wrappers
  import opened Text
  import opened Pagination
  import opened Timing
  import opened Validation

  /** A playback speed: the slider's value, always positive. */
  type Speed = r: real | r > 0.0 witness 1.0

  /** `autoNextPage`: declared `true` and never reassigned. */
  const AutoNextPage: bool := true

  /** `currentBook`: the upload's file name and content, and the page count
      (the back end's `total_pages` until the table of contents replaces it). */
  datatype Book = Book(filename: string, content: Content, totalPages: nat)

  /** A `SpeechSynthesisUtterance` as `startAudio` configures it. */
  datatype Utterance = Utterance(text: string, voice: Option<Voice>, lang: string, rate: real, pitch: real)

  /** A call made into the browser's speech engine. */
  datatype EngineCall = Speak(u: Utterance) | Cancel | PauseSpeech | ResumeSpeech

  /** The page's globals. `speechAvailable` is `speechSynthesis !== null`;
      `ticking` says whether the 50 ms highlight interval is running;
      `startTime` is in seconds; `pendingAdvances` counts the auto-advance
      timeouts scheduled by `onend` and not yet fired; `engine` records the
      calls made into the speech engine, oldest first. */
  datatype Session = Session(
    speechAvailable: bool,
    book: Option<Book>,
    page: nat,
    playing: bool,
    paused: bool,
    utterance: Option<Utterance>,
    wordIndex: nat,
    words: seq<string>,
    timings: seq<WordTiming>,
    speed: Speed,
    ticking: bool,
    startTime: real,
    pendingAdvances: nat,
    engine: seq<EngineCall>)

  /** The state after `initializeApp`, before any book is loaded. */
  function Init(speechAvailable: bool): (s: Session)
    ensures Consistent(s) && !s.playing && s.book.None?
  {
    Session(speechAvailable, None, 0, false, false, None, 0, [], [], 1.0, false, 0.0, 0, [])
  }

  /** What every handler keeps true: a pause is a pause of something playing,
      "playing" and "has an utterance" go together, an utterance exists only
      with a speech engine and a book, the page count is the one the table of
      contents computed, the current page is in range (or page 0 of an empty
      book), and there is one timing per word. */
  predicate Consistent(s: Session) {
    && (s.paused ==> s.playing)
    && (s.playing <==> s.utterance.Some?)
    && (s.utterance.Some? ==> s.speechAvailable && s.book.Some?)
    && (s.book.Some? ==> s.book.value.totalPages == PageCount(s.book.value.content))
    && (s.book.Some? ==> s.page == 0 || s.page < s.book.value.totalPages)
    && |s.timings| == |s.words|
  }

  // ------------------------------------------------------------------------
  // Pages

  /** The text the page shows: each word followed by one space, as the
      concatenated `textContent` of the word spans. */
  function SpokenText(words: seq<string>): string
  {
    if |words| == 0 then "" else words[0] + " " + SpokenText(words[1..])
  }

  /** `showPage(p)`: nothing without a book; otherwise the page becomes `p`,
      its words are re-tokenised, the highlight index returns to 0 and the
      timings are recomputed at the current speed. Playback is not touched. */
  function ShowPage(s: Session, p: nat): (r: Session)
    ensures Consistent(s) && (s.book.Some? ==> p == 0 || p < s.book.value.totalPages) ==> Consistent(r)
    ensures s.book.None? ==> r == s
    ensures s.book.Some? ==>
      (r.page == p && r.words == PageWords(s.book.value.content, p)
       && r.wordIndex == 0 && r.timings == UniformTimings(r.words, BaseTimePerWord(s.speed)))
    ensures r.playing == s.playing && r.paused == s.paused && r.utterance == s.utterance
      && r.book == s.book && r.engine == s.engine && r.pendingAdvances == s.pendingAdvances
    ensures r.ticking == s.ticking && r.startTime == s.startTime && r.speed == s.speed
      && r.speechAvailable == s.speechAvailable
  {
    if s.book.None? then s
    else
      var ws := PageWords(s.book.value.content, p);
      s.(page := p, words := ws, wordIndex := 0, timings := UniformTimings(ws, BaseTimePerWord(s.speed)))
  }

  /** `updateReader` after a successful upload: the book is stored, the table
      of contents replaces the back end's page count by its own, and page 0
      is shown. A running playback is not stopped. */
  function Load(s: Session, filename: string, content: Content, backendTotal: nat): (r: Session)
    ensures Consistent(s) ==> Consistent(r)
    ensures r.book == Some(Book(filename, content, PageCount(content)))
    ensures r.page == 0 && r.words == PageWords(content, 0)
    ensures r.playing == s.playing && r.utterance == s.utterance
  {
    var t := s.(book := Some(Book(filename, content, backendTotal)));
    var toc := t.(book := Some(t.book.value.(totalPages := PageCount(content))));
    ShowPage(toc, 0)
  }

  /** `prevPage.disabled`. */
  predicate PrevDisabled(s: Session) {
    s.page == 0
  }

  /** `nextPage.disabled`: `currentPage >= total_pages - 1`. */
  predicate NextDisabled(s: Session)
    requires s.book.Some?
  {
    s.page as int >= s.book.value.totalPages as int - 1
  }

  /** `if (isPlaying) stopAudio();`, as the page moves do it first. */
  function StopIfPlaying(s: Session): (r: Session)
    ensures Consistent(s) ==> Consistent(r) && !r.playing
  {
    if s.playing then Stop(s) else s
  }

  /** `nextPage`. */
  function NextPage(s: Session): (r: Session)
    ensures Consistent(s) ==> Consistent(r)
    ensures r.book == s.book && r.pendingAdvances == s.pendingAdvances && r.speed == s.speed
      && r.speechAvailable == s.speechAvailable
  {
    if s.book.Some? && (s.page as int) < s.book.value.totalPages as int - 1 then
      ShowPage(StopIfPlaying(s), s.page + 1)
    else s
  }

  /** `previousPage`. */
  function PreviousPage(s: Session): (r: Session)
    ensures Consistent(s) ==> Consistent(r)
  {
    if s.book.Some? && s.page > 0 then ShowPage(StopIfPlaying(s), s.page - 1) else s
  }

  /** `goToPage(i)`, reached from the table of contents, whose entries are
      the pages `0 .. total_pages - 1`. */
  function GoToPage(s: Session, p: nat): (r: Session)
    requires Consistent(s) && s.book.Some? && p < s.book.value.totalPages
    ensures Consistent(r) && !r.playing && r.page == p
  {
    ShowPage(StopIfPlaying(s), p)
  }

  // ------------------------------------------------------------------------
  // Playback

  /** `startAudio`: nothing without an engine or a book, or when the page text
      is blank; otherwise cancel a previous utterance if there is one, speak a
      new one carrying the page text, the chosen voice, language ru-RU, the
      current speed and pitch 1, and mark playback as running. */
  function Start(s: Session, voices: seq<Voice>, selected: string): (r: Session)
    ensures Consistent(s) ==> Consistent(r)
    ensures r.book == s.book && r.page == s.page && r.words == s.words
    ensures r.pendingAdvances == s.pendingAdvances && r.ticking == s.ticking && r.speed == s.speed
  {
    if !s.speechAvailable || s.book.None? then s
    else
      var text := SpokenText(s.words);
      if AllSpace(text, IsJsSpace) then s
      else
        var u := Utterance(text, PickVoice(voices, selected), "ru-RU", s.speed, 1.0);
        var log := if s.utterance.Some? then s.engine + [Cancel] else s.engine;
        s.(utterance := Some(u), engine := log + [Speak(u)], playing := true, paused := false)
  }

  /** `pauseAudio`: with an engine and an utterance, pause the engine, mark
      the pause and stop the highlight interval. */
  function Pause(s: Session): (r: Session)
    ensures Consistent(s) ==> Consistent(r)
    ensures s.speechAvailable && s.utterance.Some? ==>
      && r.engine == s.engine + [PauseSpeech] && r.paused && !r.ticking
      && r.playing == s.playing && r.utterance == s.utterance
      && r.wordIndex == s.wordIndex && r.timings == s.timings && r.page == s.page
    ensures !(s.speechAvailable && s.utterance.Some?) ==> r == s
  {
    if s.speechAvailable && s.utterance.Some? then
      s.(engine := s.engine + [PauseSpeech], paused := true, ticking := false)
    else s
  }

  /** `startWordHighlighting`: the highlight index returns to word 0, the
      clock restarts at `now` and the interval runs. */
  function StartHighlighting(s: Session, now: real): (r: Session)
    ensures Consistent(s) ==> Consistent(r)
    ensures r.ticking && r.wordIndex == 0 && r.startTime == now
  {
    s.(ticking := true, startTime := now, wordIndex := 0)
  }

  /** `resumeAudio`: with an engine, an utterance and a pause, resume the
      engine, clear the pause and restart the highlighting, which puts the
      highlight back on word 0. */
  function Resume(s: Session, now: real): (r: Session)
    ensures Consistent(s) ==> Consistent(r)
  {
    if s.speechAvailable && s.utterance.Some? && s.paused then
      StartHighlighting(s.(engine := s.engine + [ResumeSpeech], paused := false), now)
    else s
  }

  /** `stopAudio`: with an engine and an utterance, cancel the engine, clear
      both flags and the utterance, and stop the highlighting. */
  function Stop(s: Session): (r: Session)
    ensures Consistent(s) ==> Consistent(r)
    ensures r.book == s.book && r.page == s.page && r.words == s.words
      && r.pendingAdvances == s.pendingAdvances && r.speed == s.speed
      && r.speechAvailable == s.speechAvailable
  {
    if s.speechAvailable && s.utterance.Some? then
      s.(engine := s.engine + [Cancel], playing := false, paused := false,
         utterance := None, ticking := false)
    else s
  }

  /** `toggleAudio`. */
  function Toggle(s: Session, voices: seq<Voice>, selected: string, now: real): (r: Session)
    ensures Consistent(s) ==> Consistent(r)
  {
    if s.playing then (if s.paused then Resume(s, now) else Pause(s))
    else Start(s, voices, selected)
  }

  /** The utterance's `onstart` handler. */
  function OnStart(s: Session, now: real): (r: Session)
    ensures Consistent(s) ==> Consistent(r)
    ensures r.ticking && r.wordIndex == 0 && r.startTime == now
    ensures r.(ticking := s.ticking, wordIndex := s.wordIndex, startTime := s.startTime) == s
  {
    StartHighlighting(s, now)
  }

  /** The condition under which `onend` schedules the next page. */
  predicate AdvanceDue(s: Session) {
    s.book.Some? && AutoNextPage && (s.page as int) < s.book.value.totalPages as int - 1
  }

  /** The utterance's `onend` handler: clear both flags and the utterance,
      stop the highlighting, and schedule a move to the next page followed by
      a new start when there is a next page. */
  function OnEnd(s: Session): (r: Session)
    ensures Consistent(s) ==> Consistent(r)
    ensures r.book == s.book && r.page == s.page && r.words == s.words && r.engine == s.engine
  {
    s.(playing := false, paused := false, utterance := None, ticking := false,
       pendingAdvances := if AdvanceDue(s) then s.pendingAdvances + 1 else s.pendingAdvances)
  }

  /** The utterance's `onerror` handler: as `onend`, without scheduling. */
  function OnError(s: Session): (r: Session)
    ensures Consistent(s) ==> Consistent(r)
    ensures r.book == s.book && r.page == s.page && r.words == s.words && r.engine == s.engine
  {
    s.(playing := false, paused := false, utterance := None, ticking := false)
  }

  /** A scheduled auto-advance fires: `nextPage(); startAudio();`. */
  function AutoAdvance(s: Session, voices: seq<Voice>, selected: string): (r: Session)
    requires s.pendingAdvances > 0
    ensures Consistent(s) ==> Consistent(r)
    ensures r.pendingAdvances == s.pendingAdvances - 1 && r.book == s.book
    ensures AdvanceDue(s) ==> r.page == s.page + 1
    ensures !AdvanceDue(s) ==> r.page == s.page
  {
    var t := s.(pendingAdvances := s.pendingAdvances - 1);
    Start(NextPage(t), voices, selected)
  }

  /** The speed slider's `input` handler: store the speed; while playing with
      an utterance, set its rate and re-anchor a non-empty timing list at the
      elapsed time. When idle the timings are left as computed for the old
      speed. */
  function SetSpeed(s: Session, v: Speed, now: real): (r: Session)
    ensures Consistent(s) ==> Consistent(r)
    ensures r.speed == v
    ensures s.playing && s.utterance.Some? ==>
      && r.utterance == Some(s.utterance.value.(rate := v))
      && r.timings == Reanchored(s.timings, s.wordIndex, now - s.startTime, BaseTimePerWord(v))
      && r.(speed := s.speed, utterance := s.utterance, timings := s.timings) == s
    ensures !(s.playing && s.utterance.Some?) ==> r == s.(speed := v)
  {
    ReanchoredKeepsWords(s.timings, s.wordIndex, now - s.startTime, BaseTimePerWord(v));
    if s.playing && s.utterance.Some? then
      var ts := if |s.timings| > 0
        then Reanchored(s.timings, s.wordIndex, now - s.startTime, BaseTimePerWord(v))
        else s.timings;
      s.(speed := v, utterance := Some(s.utterance.value.(rate := v)), timings := ts)
    else s.(speed := v)
  }

  /** One run of the 50 ms interval body: while playing and not paused, the
      highlight moves to the first window containing the elapsed time; when
      none does and the highlight is at or past the last word, the interval
      stops itself. */
  function Tick(s: Session, now: real): (r: Session)
    ensures Consistent(s) ==> Consistent(r)
    ensures r.(wordIndex := s.wordIndex, ticking := s.ticking) == s
    ensures r.wordIndex != s.wordIndex ==>
      r.wordIndex < |s.timings| && Covers(s.timings[r.wordIndex], now - s.startTime)
    ensures !r.ticking ==> !s.ticking || s.wordIndex as int >= |s.words| - 1
    ensures !(s.ticking && s.playing && !s.paused) ==> r == s
    ensures s.ticking && s.playing && !s.paused && FirstWindow(s.timings, now - s.startTime).Some? ==>
      r.wordIndex == FirstWindow(s.timings, now - s.startTime).value && r.ticking
    ensures s.ticking && s.playing && !s.paused && FirstWindow(s.timings, now - s.startTime).None? ==>
      r.wordIndex == s.wordIndex && (r.ticking <==> s.wordIndex as int < |s.words| - 1)
  {
    if s.ticking && s.playing && !s.paused then
      match FirstWindow(s.timings, now - s.startTime)
      case Some(i) => s.(wordIndex := i)
      case None => if s.wordIndex as int >= |s.words| - 1 then s.(ticking := false) else s
    else s
  }

  // ------------------------------------------------------------------------
  // Properties of the state machine

  /** `nextPage` moves exactly when the next button is enabled, by one page,
      staying within the book, and stops playback first; otherwise it changes
      nothing. */
  lemma NextPageGuard(s: Session)
    requires Consistent(s) && s.book.Some?
    ensures var r := NextPage(s);
      && Consistent(r)
      && (!NextDisabled(s) ==> r.page == s.page + 1 && r.page < r.book.value.totalPages && !r.playing)
      && (NextDisabled(s) ==> r == s)
  {
  }

  /** `previousPage` moves exactly when the previous button is enabled, by
      one page back, and stops playback first; otherwise it changes nothing. */
  lemma PreviousPageGuard(s: Session)
    requires Consistent(s) && s.book.Some?
    ensures var r := PreviousPage(s);
      && Consistent(r)
      && (!PrevDisabled(s) ==> r.page + 1 == s.page && !r.playing)
      && (PrevDisabled(s) ==> r == s)
  {
  }

  /** `toggleAudio` while playing flips the pause and keeps playing; while
      idle it either starts or (no engine, no book, blank page) does nothing. */
  lemma ToggleFlipsPause(s: Session, voices: seq<Voice>, selected: string, now: real)
    requires Consistent(s)
    ensures var r := Toggle(s, voices, selected, now);
      && (s.playing ==> r.playing && r.paused == !s.paused)
      && (!s.playing ==> r == Start(s, voices, selected))
  {
  }

  /** Whatever happened before, stopping, ending and failing leave the flags
      both false and no utterance; ending and failing always stop the
      highlight interval, and stopping stops it when something was playing
      (`stopAudio` on an idle page touches nothing). */
  lemma StoppedIsIdle(s: Session)
    requires Consistent(s)
    ensures !Stop(s).playing && !Stop(s).paused && Stop(s).utterance.None?
    ensures s.playing ==> !Stop(s).ticking
    ensures !s.playing ==> Stop(s) == s
    ensures !OnEnd(s).playing && !OnEnd(s).paused && OnEnd(s).utterance.None? && !OnEnd(s).ticking
    ensures !OnError(s).playing && !OnError(s).paused && OnError(s).utterance.None? && !OnError(s).ticking
  {
  }

  /** Resuming does not keep the highlight position: it goes back to word 0
      and the clock restarts, while the engine continues mid-page. */
  lemma ResumeRestartsHighlight(s: Session, now: real)
    requires s.speechAvailable && s.utterance.Some? && s.paused
    ensures Resume(s, now).wordIndex == 0 && Resume(s, now).startTime == now
    ensures Resume(s, now).ticking && !Resume(s, now).paused
    ensures Resume(s, now).engine == s.engine + [ResumeSpeech]
  {
  }

  /** `stopAudio` does not cancel a scheduled auto-advance: after the last
      utterance of a page ends and the user stops, the timeout still moves to
      the next page and starts speaking it. */
  lemma StopKeepsAutoAdvance(s: Session)
    requires Consistent(s) && AdvanceDue(s)
    ensures Stop(OnEnd(s)).pendingAdvances == s.pendingAdvances + 1
  {
  }

  /** `startAudio` returns at once, changing nothing, exactly when there is
      no speech engine, no book, or no word on the page. */
  lemma StartInert(s: Session, voices: seq<Voice>, selected: string)
    requires forall i :: 0 <= i < |s.words| ==> IsToken(s.words[i], IsJsSpace)
    ensures Start(s, voices, selected) == s <==> !s.speechAvailable || s.book.None? || |s.words| == 0
  {
    BlankIffNoWords(s.words);
    if s.speechAvailable && s.book.Some? && |s.words| > 0 {
      assert |Start(s, voices, selected).engine| > |s.engine|;
    }
  }

  /** `resumeAudio` changes nothing exactly when there is no engine, no
      utterance or no pause to resume from. */
  lemma ResumeOnlyWhenPaused(s: Session, now: real)
    ensures Resume(s, now) == s <==> !(s.speechAvailable && s.utterance.Some? && s.paused)
  {
    if s.speechAvailable && s.utterance.Some? && s.paused {
      assert |Resume(s, now).engine| > |s.engine|;
    }
  }

  /** `onend` schedules an auto-advance exactly when there is a next page;
      on the last page nothing is scheduled. */
  lemma OnEndSchedulesOnlyBeforeLastPage(s: Session)
    ensures OnEnd(s).pendingAdvances > s.pendingAdvances <==> AdvanceDue(s)
    ensures !AdvanceDue(s) ==> OnEnd(s).pendingAdvances == s.pendingAdvances
  {
  }

  /** `onerror` schedules no auto-advance, whatever the page. */
  lemma OnErrorSchedulesNothing(s: Session)
    ensures OnError(s).pendingAdvances == s.pendingAdvances
    ensures OnError(s).page == s.page
  {
  }

  /** The utterance speaks exactly the words the highlighter walks through. */
  lemma {:induction false} SpokenWords(words: seq<string>)
    requires forall i :: 0 <= i < |words| ==> IsToken(words[i], IsJsSpace)
    ensures Tokens(SpokenText(words), IsJsSpace) == words
  {
    if |words| > 0 {
      SpokenWords(words[1..]);
      TokenIsOneToken(words[0], IsJsSpace);
      TokensAcrossSpace(words[0], ' ', SpokenText(words[1..]), IsJsSpace);
      assert SpokenText(words) == words[0] + [' '] + SpokenText(words[1..]);
      assert [words[0]] + words[1..] == words;
    } else {
      TokensEmptyIffBlank("", IsJsSpace);
    }
  }

  /** The page text is blank exactly when the page has no words, so
      `startAudio` does nothing on an empty page and starts on any other. */
  lemma BlankIffNoWords(words: seq<string>)
    requires forall i :: 0 <= i < |words| ==> IsToken(words[i], IsJsSpace)
    ensures AllSpace(SpokenText(words), IsJsSpace) <==> |words| == 0
  {
    if |words| > 0 {
      assert SpokenText(words)[0] == words[0][0];
    }
  }

  /** With an engine and a book, `startAudio` on a page with words speaks the
      page and leaves playback running unpaused. */
  lemma StartSpeaksPage(s: Session, voices: seq<Voice>, selected: string)
    requires s.speechAvailable && s.book.Some?
    requires s.words == PageWords(s.book.value.content, s.page) && |s.words| > 0
    ensures var r := Start(s, voices, selected);
      && r.playing && !r.paused && r.utterance.Some?
      && Tokens(r.utterance.value.text, IsJsSpace) == s.words
      && r.utterance.value.voice == PickVoice(voices, selected)
      && r.utterance.value.rate == s.speed
      && |r.engine| > 0 && r.engine[|r.engine| - 1] == Speak(r.utterance.value)
  {
    BlankIffNoWords(s.words);
    SpokenWords(s.words);
  }

  /** While speech runs at the speed the timings were computed for, each tick
      highlights the word whose window holds the elapsed time:
      `floor(elapsed / (0.4 / speed))`. */
  lemma TickFollowsUniformPace(s: Session, now: real)
    requires s.ticking && s.playing && !s.paused
    requires s.timings == UniformTimings(s.words, BaseTimePerWord(s.speed))
    requires 0.0 <= now - s.startTime < |s.words| as real * BaseTimePerWord(s.speed)
    ensures Tick(s, now).wordIndex == ((now - s.startTime) / BaseTimePerWord(s.speed)).Floor
    ensures Tick(s, now).ticking
  {
    UniformFindsWordAt(s.words, BaseTimePerWord(s.speed), now - s.startTime);
  }

  /** Past the end of the last window the interval stops itself once the
      highlight has reached the last word. */
  lemma TickStopsAtEnd(s: Session, now: real)
    requires s.ticking && s.playing && !s.paused && |s.words| > 0
    requires s.timings == UniformTimings(s.words, BaseTimePerWord(s.speed))
    requires now - s.startTime >= |s.words| as real * BaseTimePerWord(s.speed)
    requires s.wordIndex == |s.words| - 1
    ensures !Tick(s, now).ticking
  {
    UniformEarlierMiss(s.words, BaseTimePerWord(s.speed), now - s.startTime, |s.words|);
  }

  /** Whatever the timings, a tick moves the highlight to the least index
      whose window holds the elapsed time, and the interval keeps running. */
  lemma TickTakesLeastCovering(s: Session, now: real, k: nat)
    requires s.ticking && s.playing && !s.paused
    requires k < |s.timings| && Covers(s.timings[k], now - s.startTime)
    requires forall j :: 0 <= j < k ==> !Covers(s.timings[j], now - s.startTime)
    ensures Tick(s, now).wordIndex == k && Tick(s, now).ticking
  {
    FirstIsLeast(s.timings, now - s.startTime, k);
  }

  /** A speed change while speaking leaves the timings re-anchored at the
      highlighted word `k` and the elapsed time (`SetSpeed`'s contract). On
      such timings the next tick stays on `k` when the elapsed time is at
      least `k` times the new time per word, and otherwise jumps back to an
      earlier word, whose shifted window now holds the elapsed time. */
  lemma TickAfterSpeedChange(t: Session, now: real, before: seq<WordTiming>, base: real)
    requires t.ticking && t.playing && !t.paused
    requires t.wordIndex < |before| && base > 0.0 && now - t.startTime >= 0.0
    requires t.timings == Reanchored(before, t.wordIndex, now - t.startTime, base)
    ensures now - t.startTime >= t.wordIndex as real * base ==>
      Tick(t, now).wordIndex == t.wordIndex && Tick(t, now).ticking
    ensures now - t.startTime < t.wordIndex as real * base ==>
      Tick(t, now).wordIndex < t.wordIndex && Tick(t, now).ticking
  {
    ReanchoredScanLandsOnCurrent(before, t.wordIndex, now - t.startTime, base);
  }

  /** A speed change while idle stores the speed but keeps the timings
      computed for the old one, so on a page with words they no longer match
      the new pace until the page is shown again. */
  lemma IdleSpeedChangeKeepsOldPace(s: Session, v: Speed, now: real)
    requires !s.playing && v != s.speed && |s.words| > 0
    requires s.timings == UniformTimings(s.words, BaseTimePerWord(s.speed))
    ensures SetSpeed(s, v, now).timings == s.timings
    ensures SetSpeed(s, v, now).timings != UniformTimings(s.words, BaseTimePerWord(v))
  {
    var old_ := UniformTimings(s.words, BaseTimePerWord(s.speed));
    var new_ := UniformTimings(s.words, BaseTimePerWord(v));
    assert old_[0].end - old_[0].start == BaseTimePerWord(s.speed);
    assert new_[0].end - new_[0].start == BaseTimePerWord(v);
    BaseDiffers(s.speed, v);
  }

  /** Different speeds give different times per word. */
  lemma BaseDiffers(a: Speed, b: Speed)
    requires a != b
    ensures BaseTimePerWord(a) != BaseTimePerWord(b)
  {
    var x, y := BaseTimePerWord(a), BaseTimePerWord(b);
    assert x * a == y * b;
    if a < b {
      ScaleStrict(a, b, x);
    } else {
      ScaleStrict(b, a, y);
    }
  }

  /** Pausing and then resuming keeps the same utterance playing, leaves the
      engine with a pause followed by a resume, and restarts the highlight
      from word 0 at the resume time. */
  lemma PauseThenResume(s: Session, now: real)
    requires Consistent(s) && s.playing && !s.paused && s.speechAvailable
    ensures var r := Resume(Pause(s), now);
      && r.playing && !r.paused && r.utterance == s.utterance
      && r.engine == s.engine + [PauseSpeech, ResumeSpeech]
      && r.ticking && r.wordIndex == 0 && r.startTime == now
      && r.page == s.page && r.timings == s.timings
  {
    assert s.engine + [PauseSpeech] + [ResumeSpeech] == s.engine + [PauseSpeech, ResumeSpeech];
  }

  /** When speech ends on a page that has a next one, the timeout scheduled
      by `onend` moves to that page and, if it has words, speaks them. */
  lemma PageEndSpeaksNextPage(s: Session, voices: seq<Voice>, selected: string)
    requires Consistent(s) && AdvanceDue(s) && s.speechAvailable
    requires |PageWords(s.book.value.content, s.page + 1)| > 0
    ensures OnEnd(s).pendingAdvances == s.pendingAdvances + 1
    ensures AutoAdvance(OnEnd(s), voices, selected).page == s.page + 1
    ensures AutoAdvance(OnEnd(s), voices, selected).pendingAdvances == s.pendingAdvances
    ensures AutoAdvance(OnEnd(s), voices, selected).playing
    ensures !AutoAdvance(OnEnd(s), voices, selected).paused
    ensures AutoAdvance(OnEnd(s), voices, selected).utterance.Some?
    ensures Tokens(AutoAdvance(OnEnd(s), voices, selected).utterance.value.text, IsJsSpace)
      == PageWords(s.book.value.content, s.page + 1)
  {
    var e := OnEnd(s);
    assert AdvanceDue(e);
    var t := e.(pendingAdvances := e.pendingAdvances - 1);
    var n := NextPage(t);
    assert n.words == PageWords(s.book.value.content, s.page + 1);
    StartSpeaksPage(n, voices, selected);
    assert AutoAdvance(e, voices, selected) == Start(n, voices, selected);
  }
}
