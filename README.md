# GreatLoveAudio reader, in Dafny

GreatLoveAudio is a web reader that reads books aloud. A small Python back end
takes an uploaded PDF, EPUB, FB2 or TXT file and turns it into a list of pages
or one plain string. It also keeps a table of Russian voices. The browser page
(`script.js`) pages through the book, speaks the current page with the
browser's speech engine, and highlights the word being spoken. It finds that
word by estimating a time window per word from the playback speed.

This project models the logic of those three parts and proves properties of
it.

- `wrappers.dfy` (module `Wrappers`): `Option` and `Result`.
- `text.dfy` (module `Text`): the string operations the source relies on.
  These are JavaScript's `split(' ')`, `join(' ')`, `split(/\s+/)` with the
  empty pieces filtered out, `lastIndexOf` and `toLowerCase`. They are also
  Python's `str.strip`, `str.split()` and `re.sub(r'\s+', ' ', …)`. JavaScript
  and Python whitespace are kept apart.
- `pagination.dfy` (module `Pagination`): the page count computed by
  `createTableOfContents` and the page text and page words computed by
  `showPage`.
- `timing.dfy` (module `Timing`): the word-timing estimator. It covers
  `calculateWordTimings`, `recalculateWordTimings` and the scan inside the
  highlight tick.
- `validation.dfy` (module `Validation`): the upload's extension check in
  `handleFile`, and the voice pick in `startAudio`.
- `playback.dfy` (module `Playback`): the page's globals as one `Session`
  value, and every handler as a function from the old session to the new one.
  The functions keep an invariant, `Consistent`:
  - a pause implies playback;
  - playback goes with an utterance;
  - an utterance needs a speech engine and a book;
  - the page count is the one the table of contents computed;
  - the current page is in range;
  - there is one timing per word.
- `reader.dfy` (module `ReaderPage`): class `Reader`, the page's globals as
  mutable fields, with `wordTimings` as an array of records.
  - `calculateWordTimings` fills a fresh array in a loop.
  - `recalculateWordTimings` rewrites the array in place.
  - The tick runs the source's linear scan.
  - Every event handler is proved to leave `State()` equal to what the
    matching `Playback` function computes from the old state, and to keep
    the invariant `Valid()`. The helpers `createTableOfContents`,
    `calculateWordTimings`, `recalculateWordTimings` and
    `stopWordHighlighting` are proved against a record update or a `Timing`
    function instead.
- `book_parser.dfy` (module `BookParser`): `parse_book`'s dispatch on the
  lower-cased `Path.suffix`, `_extract_text_from_html`, and the loops of
  `_parse_pdf`, `_parse_epub` and `_parse_fb2`. The loops are methods proved
  against functions.
- `text_to_speech.dfy` (module `TextToSpeech`): the voice table,
  `get_available_voices`, `validate_voice`, `get_voice_info` and
  `generate_speech`.

Some inputs come from outside the page or the parser:

- The wall clock becomes a parameter `now`, in seconds.
- The engine's voice list and the selected voice become parameters.
- The calls made into the speech engine are recorded in a log, `engine`.
- The auto-advance timeout scheduled by `onend` becomes a counter,
  `pendingAdvances`, and an `AutoAdvance` event.
- What PyPDF2, ebooklib and lxml extract from a file is an input, a
  `LibraryView`.

Where the code and its comments disagree, the model follows the code.

- `resumeAudio` calls `startWordHighlighting`, which moves the highlight back
  to word 0 and restarts the clock, although the comment at script.js:570
  says the position is kept (`Playback.ResumeRestartsHighlight`).
- A speed change while nothing is playing stores the speed but does not
  recompute the timings (script.js:56-59). The timings are next recomputed
  when a page is shown.
- After slowing down, the windows before the current word start at 0. The
  linear scan then finds an earlier window first, and the highlight jumps
  back. `Timing.ReanchoredScanLandsOnCurrent` states exactly when it does not.
- `stopAudio` does not cancel a pending auto-advance
  (`Playback.StopKeepsAutoAdvance`).
- An FB2 body whose paragraphs hold only whitespace becomes an empty chapter.
  A PDF or EPUB page like that is dropped (`BookParser.BlankBodyKept`).
- The page accepts a file named `.pdf`, but the back end's `Path.suffix` of
  that name is empty, so `parse_book` refuses it
  (`BookParser.DotNameAcceptedOnlyByFrontend`).

## Model

| member | source | states |
|---|---|---|
| Text.Split | script.js:234 | `split(' ')` always yields at least one piece, and no piece holds a space |
| Text.JoinSplit | script.js:288-292 | joining the pieces of `split(sep)` with `sep` gives back the original string |
| Text.SplitJoin | script.js:288-292 | splitting a join of separator-free pieces (at least one) gives back the pieces |
| Text.Join | script.js:292 | `join(sep)`; Text.JoinSplit and Text.SplitJoin state that it inverts `split(sep)`, and Text.JoinAppend that joining two lists puts one separator between them |
| Text.Tokens | script.js:296 | every word from `split(/\s+/)`, with empty pieces filtered out, is non-empty and holds no whitespace |
| Text.TokensEmptyIffBlank | script.js:486 | a text has no words exactly when it is all whitespace |
| Text.TokensAcrossSpace | backend/text_to_speech.py:42 | the words of `a + space + b` are the words of `a` followed by those of `b` |
| Text.TokensOfJoin | script.js:288-296 | words joined by spaces tokenise back to the same words |
| Text.LastIndexOf | script.js:101 | `lastIndexOf` gives the last position of the character, or -1 exactly when it is absent |
| Text.Contains | script.js:501-503 | `includes`: the string occurs at some position; what the voice pick makes of it is stated by Validation.FirstMatch, Validation.PickVoice and Validation.RussianVoiceWins |
| Text.ToLower | script.js:101 | lower-casing keeps the length and maps each character; a dot stays a dot and nothing else becomes one |
| Text.Strip | backend/book_parser.py:36-37 | `strip()` leaves no whitespace at either end, and is empty exactly when the text is blank |
| Text.StripSlice | backend/book_parser.py:36-37 | `strip()` returns the contiguous slice of the text that starts after its leading whitespace |
| Text.StripIdempotent | backend/book_parser.py:100 | stripping twice is the same as stripping once |
| Text.TokensTrimStart | backend/book_parser.py:100 | dropping leading whitespace leaves the words unchanged |
| Text.TokensTrimEnd | backend/book_parser.py:100 | dropping trailing whitespace leaves the words unchanged |
| Text.TokensOfStrip | backend/book_parser.py:100 | `strip()` removes whitespace only: the stripped text has the same words, in the same order |
| Text.Collapse | backend/book_parser.py:99 | after replacing each whitespace run with one space, the only whitespace left is single, non-adjacent spaces, every other character comes from the input, and a leading run becomes one leading space |
| Text.CollapseRun | backend/book_parser.py:99 | a leading run of non-whitespace characters comes out of the substitution unchanged, in front of the collapsed rest |
| Text.TokensOfCollapse | backend/book_parser.py:99 | replacing each whitespace run with one space keeps every word, in order |
| Text.CollapseCollapsed | backend/book_parser.py:99 | collapsing text whose only whitespace is single, non-adjacent spaces changes nothing |
| Text.StripCollapsed | backend/book_parser.py:99-100 | stripping keeps text free of whitespace runs |
| Pagination.PagesFor | script.js:236 | `Math.ceil(n / 200)`: the least count of 200-piece pages that holds n pieces |
| Pagination.PageCount | script.js:223-236 | an array's page count is its length; a plain string's is ceil(pieces / 200), and at least 1 |
| Pagination.PageText | script.js:281-293 | the page text: the array entry, or the page's 200 pieces joined by spaces; Pagination.PlainPageSizes, Pagination.OutOfRangePageIsEmpty and Pagination.PlainPagesJoinToContent state its contents |
| Pagination.PageWords | script.js:296 | the highlight words of a page; Pagination.PageTextsWords and Pagination.PlainPagesCoverAllWords state that the pages' words together are the content's words |
| Pagination.PlainPageSizes | script.js:288-292 | every page but the last holds 200 pieces, the last holds 1 to 200, and pages past the end hold none |
| Pagination.OutOfRangePageIsEmpty | script.js:282-292 | a page index at or past the count shows an empty text with no words, for either kind of content |
| Pagination.PageTexts | script.js:288-292 | one page text per 200 pieces, rounded up |
| Pagination.JoinPageTexts | script.js:288-292 | joining all page texts with spaces gives the pieces joined with spaces |
| Pagination.PlainPagesJoinToContent | script.js:288-292 | joining all pages of a plain string with spaces reproduces the string exactly |
| Pagination.PageTextsWords | script.js:288-296 | the words of all pages, in order, are the words of the joined pieces |
| Pagination.PlainPagesCoverAllWords | script.js:288-296 | the pages' highlight words, concatenated, are exactly the words of the whole content |
| Timing.BaseTimePerWord | script.js:322 | `0.4 / speed` is positive, and multiplied by the speed gives 0.4 s |
| Timing.UniformTimings | script.js:320-333 | one window per word, each carrying its word and lasting `0.4 / speed`, the first starting at 0, each ending where the next starts |
| Timing.FirstWindow | script.js:395-404 | the scan returns the least index whose window holds the elapsed time, or none when no window does |
| Timing.FirstIsLeast | script.js:395-404 | an index whose window holds the time, with no earlier window holding it, is what the scan returns |
| Timing.UniformFindsWordAt | script.js:320-333 | with uniform windows, the word at elapsed time e is floor(e / (0.4 / speed)) |
| Timing.ReanchoredKeepsWords | script.js:336-353 | re-anchoring keeps the list's length and every word, and leaves an empty list empty |
| Timing.Reanchored | script.js:341-351 | the in-place rewrite of every window; Timing.ReanchoredKeepsWords, Timing.ReanchoredBeforeCurrent, Timing.ReanchoredFromCurrent and Timing.ReanchoredScanLandsOnCurrent state the result |
| Timing.ReanchoredFromCurrent | script.js:346-349 | from the current word on, the windows are `0.4 / speed'` wide and contiguous, and the first of them starts at the elapsed time |
| Timing.ReanchoredBeforeCurrent | script.js:342-345 | before the current word, window i spans i·base' to (i + 1)·base' |
| Timing.ReanchoredScanLandsOnCurrent | script.js:336-353 | right after a re-anchor at time e, the scan lands on the current word k exactly when e ≥ k·base' |
| Timing.ThreeWordExample | script.js:320-333 | three words at speed 1 get windows [0, 0.4), [0.4, 0.8), [0.8, 1.2), and time 0.5 highlights the second |
| Timing.SpeedUpExample | script.js:336-353 | doubling the speed at 0.5 s on word 1 gives windows [0, 0.2), [0.5, 0.7), [0.7, 0.9) |
| Validation.IsSupportedFile | script.js:100-103 | a name is accepted exactly when its lower-cased form ends with one of .pdf, .epub, .fb2, .txt |
| Validation.FileExtension | script.js:101 | the lower-cased name from its last dot, or the whole name without a dot; Validation.SupportedIffEndsWith and Validation.EndsWithDotExtension state what it compares |
| Validation.SupportedIffEndsWith | script.js:100-103 | the substring from the last dot is an allowed format exactly when the lower-cased name ends with one |
| Validation.AllowedAreDotExtensions | script.js:100 | every allowed format is a dot followed by dot-free characters |
| Validation.EndsWithDotExtension | script.js:101 | when a lower-cased name ends with such an extension, the substring from its last dot is that extension |
| Validation.HandleFile | script.js:98-106 | the upload goes ahead, with the same file, exactly when the extension check accepts; otherwise it is rejected before any upload |
| Validation.UpperCaseAccepted | script.js:100-106 | `Book.PDF` is uploaded |
| Validation.LastExtensionDecides | script.js:100-106 | `archive.txt.zip` is rejected, because only the last extension counts |
| Validation.NoDotRejected | script.js:100-106 | `pdf` (no dot, so the whole name is compared) is rejected |
| Validation.FirstMatch | script.js:501-503 | `find` returns the least index whose voice name contains the selection or whose language contains "ru", or none |
| Validation.PickVoice | script.js:500-507 | the default selection sets no voice; otherwise the first matching voice is chosen, and none only when no voice matches |
| Validation.RussianVoiceWins | script.js:500-507 | selecting `Milena` still picks the first ru-RU voice, `Yuri` |
| Playback.Init | script.js:2-14 | the initial globals keep the invariant, with nothing playing and no book |
| Playback.Consistent | script.js:2-14 | the invariant over the page's globals that every handler's contract shows it keeps |
| Playback.ShowPage | script.js:275-317 | the page becomes p, its words are the page's words, the highlight returns to 0, timings are uniform at the current speed; playback, the interval flag, the clock and the speed are untouched; the invariant is kept for an in-range page |
| Playback.Load | script.js:195-213 | the book is stored with the table of contents' page count, replacing the back end's, and page 0 is shown; the invariant is kept |
| Playback.PrevDisabled | script.js:444 | the previous button is disabled on page 0; Playback.PreviousPageGuard states that `previousPage` acts exactly when it is enabled |
| Playback.NextDisabled | script.js:445 | the next button is disabled from the last page on; Playback.NextPageGuard states that `nextPage` acts exactly when it is enabled |
| Playback.StopIfPlaying | script.js:451-453 | after it nothing plays, and the invariant is kept |
| Playback.NextPage | script.js:449-456 | keeps the invariant, the book, the pending auto-advances and the speed |
| Playback.PreviousPage | script.js:459-466 | keeps the invariant |
| Playback.GoToPage | script.js:252-260 | going to a table-of-contents entry stops playback and shows that page, keeping the invariant |
| Playback.Start | script.js:482-549 | keeps the invariant, book, page, words, pending auto-advances, interval flag and speed |
| Playback.Pause | script.js:552-562 | with an engine and an utterance, logs a pause, sets the pause flag and stops the interval, keeping playback, the utterance, the highlight, the timings and the page; otherwise changes nothing; keeps the invariant |
| Playback.StartHighlighting | script.js:379-388 | the interval runs, the highlight is on word 0, the clock restarts at `now`, and the invariant is kept |
| Playback.Resume | script.js:565-573 | keeps the invariant |
| Playback.Stop | script.js:576-585 | keeps the invariant, and the book, page, words, pending auto-advances and speed |
| Playback.Toggle | script.js:469-479 | keeps the invariant |
| Playback.OnStart | script.js:514-517 | the interval starts with the highlight on word 0 and the clock at `now`; nothing else changes; keeps the invariant |
| Playback.OnEnd | script.js:519-533 | keeps the invariant |
| Playback.OnError | script.js:535-542 | keeps the invariant |
| Playback.AdvanceDue | script.js:527 | a next page exists; Playback.OnEndSchedulesOnlyBeforeLastPage, Playback.AutoAdvance and Playback.PageEndSpeaksNextPage state what it decides |
| Playback.AutoAdvance | script.js:528-531 | the delayed `nextPage(); startAudio();` consumes one pending advance, moves to the next page when there is one and stays otherwise, keeps the book and the invariant |
| Playback.SetSpeed | script.js:53-60 | stores the speed; while playing, sets the utterance's rate and re-anchors the timings at the current word and elapsed time, changing nothing else; when idle, only the speed changes; keeps the invariant |
| Playback.Tick | script.js:389-412 | outside a running, unpaused interval nothing changes; otherwise the highlight moves to the first window holding the elapsed time and the interval keeps running, and when no window holds it the highlight stays and the interval stops exactly when at or past the last word; only the highlight and the interval flag ever change |
| Playback.NextPageGuard | script.js:441-456 | `nextPage` moves one page forward, stops playback and stays in range exactly when the next button is enabled, and otherwise changes nothing |
| Playback.PreviousPageGuard | script.js:441-466 | `previousPage` moves one page back and stops playback exactly when the previous button is enabled, and otherwise changes nothing |
| Playback.ToggleFlipsPause | script.js:469-479 | while playing, toggling keeps playing and flips the pause; while idle it is `startAudio` |
| Playback.StoppedIsIdle | script.js:519-585 | end and error leave both flags false, no utterance and the interval stopped; stop does the same for a session that plays, and changes nothing otherwise |
| Playback.ResumeRestartsHighlight | script.js:565-573 | resuming tells the engine to resume, clears the pause, restarts the interval and puts the highlight back on word 0, with the clock restarted |
| Playback.StopKeepsAutoAdvance | script.js:527-531 | an auto-advance scheduled at the end of a page survives a later stop |
| Playback.StartInert | script.js:482-486 | `startAudio` changes nothing exactly when there is no speech engine, no book or no word on the page |
| Playback.ResumeOnlyWhenPaused | script.js:565-573 | `resumeAudio` changes nothing exactly when there is no engine, no utterance or no pause |
| Playback.OnEndSchedulesOnlyBeforeLastPage | script.js:519-533 | `onend` schedules an auto-advance exactly when a next page exists, so none on the last page |
| Playback.OnErrorSchedulesNothing | script.js:535-542 | `onerror` schedules no auto-advance and keeps the page |
| Playback.SpokenWords | script.js:302-308 | the text of the word spans tokenises back to exactly the page's words |
| Playback.SpokenText | script.js:303-308 | the text of the word spans that `startAudio` reads back (script.js:485); Playback.SpokenWords and Playback.BlankIffNoWords state its words |
| Playback.BlankIffNoWords | script.js:485-486 | the spoken text is blank exactly when the page has no words |
| Playback.StartSpeaksPage | script.js:482-549 | on a page with words, starting speaks an utterance whose words are the page's words, with the picked voice and the current speed, and playback runs |
| Playback.TickFollowsUniformPace | script.js:389-404 | at the speed the timings were computed for, a tick highlights word floor(elapsed / (0.4 / speed)) and the interval keeps running |
| Playback.TickStopsAtEnd | script.js:406-409 | past the last window, with the highlight on the last word, the interval stops |
| Playback.TickTakesLeastCovering | script.js:395-404 | a tick lands on any window that holds the elapsed time with no earlier window holding it, and keeps the interval running |
| Playback.TickAfterSpeedChange | script.js:336-404 | after a speed change re-anchored the timings at word k and time e, the next tick at that time stays on word k when e ≥ k·(0.4 / speed), and jumps back to an earlier word otherwise |
| Playback.IdleSpeedChangeKeepsOldPace | script.js:53-60 | changing the speed while idle keeps the timings of the old speed, which then differ from those of the new one |
| Playback.PauseThenResume | script.js:552-573 | pause then resume keeps playback and the utterance, logs a pause then a resume, and restarts the highlight at word 0 at `now` on the same page and timings |
| Playback.PageEndSpeaksNextPage | script.js:482-549 | at the end of a page that has a successor, `onend` schedules one auto-advance, which shows the next page and speaks exactly its words |
| ReaderPage.Reader.constructor | script.js:2-14 | the fields start in the initial state, which keeps the invariant |
| ReaderPage.Reader.LoadBook | script.js:133-145 | the new state is `Playback.Load` of the old, and the invariant is kept |
| ReaderPage.Reader.CreateTableOfContents | script.js:216-249 | only `total_pages` changes, to the page count of the content |
| ReaderPage.Reader.ShowPage | script.js:275-317 | the new state is `Playback.ShowPage` of the old |
| ReaderPage.Reader.CalculateWordTimings | script.js:320-333 | the loop fills a fresh array with exactly `UniformTimings` of the words at the current speed, and nothing else changes |
| ReaderPage.Reader.RecalculateWordTimings | script.js:336-353 | the in-place loop leaves the array equal to `Reanchored` of its old contents, or unchanged when empty |
| ReaderPage.Reader.NextPage | script.js:449-456 | the new state is `Playback.NextPage` of the old |
| ReaderPage.Reader.PreviousPage | script.js:459-466 | the new state is `Playback.PreviousPage` of the old |
| ReaderPage.Reader.GoToPage | script.js:252-260 | the new state is `Playback.GoToPage` of the old |
| ReaderPage.Reader.ToggleAudio | script.js:469-479 | the new state is `Playback.Toggle` of the old |
| ReaderPage.Reader.StartAudio | script.js:482-549 | the new state is `Playback.Start` of the old |
| ReaderPage.Reader.PauseAudio | script.js:552-562 | the new state is `Playback.Pause` of the old |
| ReaderPage.Reader.ResumeAudio | script.js:565-573 | the new state is `Playback.Resume` of the old |
| ReaderPage.Reader.StopAudio | script.js:576-585 | the new state is `Playback.Stop` of the old |
| ReaderPage.Reader.StartWordHighlighting | script.js:379-388 | the new state is `Playback.StartHighlighting` of the old |
| ReaderPage.Reader.StopWordHighlighting | script.js:416-427 | only the interval flag changes, to off |
| ReaderPage.Reader.OnStart | script.js:514-517 | the new state is `Playback.OnStart` of the old |
| ReaderPage.Reader.OnEnd | script.js:519-533 | the new state is `Playback.OnEnd` of the old |
| ReaderPage.Reader.OnError | script.js:535-542 | the new state is `Playback.OnError` of the old |
| ReaderPage.Reader.AutoAdvance | script.js:528-531 | the new state is `Playback.AutoAdvance` of the old |
| ReaderPage.Reader.SetSpeed | script.js:53-60 | the new state is `Playback.SetSpeed` of the old |
| ReaderPage.Reader.Tick | script.js:389-412 | the linear scan leaves the state equal to `Playback.Tick` of the old, so the highlight lands on the first window holding the elapsed time |
| BookParser.Suffix | backend/book_parser.py:14 | `Path.suffix` is non-empty exactly when the last dot is neither the first nor the last character, and is then the name from that dot on: a dot followed by at least one dot-free character |
| BookParser.FormatOf | backend/book_parser.py:14-25 | the format chosen from the lower-cased suffix, or the error carrying it; BookParser.FormatOfRoutes, BookParser.BackendAcceptedIsFrontendAccepted and BookParser.FrontendAcceptedIsBackendAccepted state it |
| BookParser.FormatOfSuffix | backend/book_parser.py:16-25 | the `if`/`elif` chain; BookParser.FormatOfRoutes states that each extension goes to its format and anything else to an error carrying it |
| BookParser.FormatOfRoutes | backend/book_parser.py:14-25 | a format is chosen exactly when the lower-cased suffix is its extension; any other suffix, including the empty one, is an error carrying it |
| BookParser.FormatIgnoresCase | backend/book_parser.py:14-22 | `Tolstoy.FB2` goes to the FB2 parser: the suffix is lower-cased before the test |
| BookParser.DotNameHasNoFormat | backend/book_parser.py:14-25 | `.pdf` has an empty suffix and is refused with that empty suffix in the error |
| BookParser.BackendAcceptedIsFrontendAccepted | backend/book_parser.py:14-23 | every name the back end accepts is also accepted by the page's extension check |
| BookParser.FrontendAcceptedIsBackendAccepted | backend/book_parser.py:14-23 | every name the page accepts whose last dot is not its first character is parsed by the back end |
| BookParser.DotNameAcceptedOnlyByFrontend | backend/book_parser.py:14 | the page accepts `.pdf`, but the back end refuses it |
| BookParser.ParseBook | backend/book_parser.py:12-25 | an error exactly for an unsupported suffix; TXT gives the whole text; PDF gives the kept stripped page texts, EPUB the EPUB chapters and FB2 the FB2 chapters; PDF and EPUB pages are non-blank and stripped |
| BookParser.KeepStripped | backend/book_parser.py:36-37 | at most one entry per input, and every entry is non-empty and stripped |
| BookParser.KeepStrippedAppend | backend/book_parser.py:33-37 | the filter works entry by entry, so it keeps source order |
| BookParser.KeepStrippedOne | backend/book_parser.py:36-37 | a single text is dropped when blank, and kept stripped otherwise |
| BookParser.KeepStrippedAllKept | backend/book_parser.py:36-37 | when no text strips to nothing, every text is kept, stripped, in its own place |
| BookParser.KeepStrippedNoneKept | backend/book_parser.py:36-37 | when every text strips to nothing, no page is kept |
| BookParser.ParsePdf | backend/book_parser.py:29-41 | the loop's page list is exactly `KeepStripped` of the extracted texts |
| BookParser.DocumentTexts | backend/book_parser.py:48-52 | at most one text per item, each without whitespace at either end |
| BookParser.DocumentTextsAppend | backend/book_parser.py:48-52 | items are read in order: the texts of two runs of items are those of the first then those of the second |
| BookParser.DocumentTextsOne | backend/book_parser.py:49-52 | a document item gives its extracted text; any other item gives nothing |
| BookParser.EpubChapters | backend/book_parser.py:48-54 | every chapter is non-empty and stripped |
| BookParser.EpubChaptersAreExtracts | backend/book_parser.py:52-54 | every chapter is the extracted text of some document item, since stripping it again changes nothing |
| BookParser.KeepStrippedOfUnpadded | backend/book_parser.py:53-54 | for texts already stripped, the filter keeps only texts from the input |
| BookParser.ParseEpub | backend/book_parser.py:45-58 | the loop's chapter list is exactly `EpubChapters` of the items |
| BookParser.ParagraphTexts | backend/book_parser.py:71-75 | at most one entry per paragraph |
| BookParser.ParagraphTextsAppend | backend/book_parser.py:73-75 | paragraphs are read in order: the texts of two runs of paragraphs are those of the first then those of the second |
| BookParser.ParagraphTextsOne | backend/book_parser.py:74-75 | a paragraph with non-empty text gives that text stripped; one without gives nothing |
| BookParser.ParagraphTextsEmptyIff | backend/book_parser.py:73-77 | a body gives no paragraph texts exactly when none of its paragraphs has non-empty text |
| BookParser.Fb2Chapters | backend/book_parser.py:69-78 | at most one chapter per body |
| BookParser.Fb2ChaptersAppend | backend/book_parser.py:69-78 | bodies are handled one by one, in order |
| BookParser.Fb2ChaptersOne | backend/book_parser.py:71-78 | a body gives the stripped paragraph texts joined by single spaces, or nothing when no paragraph had text |
| BookParser.BlankBodyKept | backend/book_parser.py:74-78 | a body with one blank paragraph becomes an empty chapter, while the PDF/EPUB filter drops a blank page |
| BookParser.ParseFb2 | backend/book_parser.py:62-82 | the nested loops' chapter list is exactly `Fb2Chapters` of the bodies |
| BookParser.FirstClose | backend/book_parser.py:97 | the first `>`, or none when there is none |
| BookParser.RemoveTags | backend/book_parser.py:97 | `re.sub(r'<[^>]+>', '', s)` scanning left to right; BookParser.RemoveTagsKeepsText, BookParser.RemoveTagsDropsTag, BookParser.RemoveTagsNoTag and BookParser.RemoveTagsOfTagFree state it |
| BookParser.RemoveTagsKeepsCloseFree | backend/book_parser.py:97 | text without `>` holds no tag and is left alone |
| BookParser.RemoveTagsKeepsText | backend/book_parser.py:97 | text before any `<` is kept as it is, in front of what remains of the rest |
| BookParser.RemoveTagsDropsTag | backend/book_parser.py:97 | a leading `<`, one or more non-`>` characters and `>` are dropped whole |
| BookParser.RemoveTagsNoTag | backend/book_parser.py:97 | after removing `<[^>]+>` matches, no match remains |
| BookParser.RemoveTagsOfTagFree | backend/book_parser.py:97 | text with no match is left unchanged |
| BookParser.CollapseNoTag | backend/book_parser.py:99 | collapsing whitespace creates no tag |
| BookParser.NoTagStrip | backend/book_parser.py:100 | stripping creates no tag |
| BookParser.ExtractTextFromHtml | backend/book_parser.py:93-100 | the result has no whitespace at either end |
| BookParser.ExtractedTextCollapsed | backend/book_parser.py:99-100 | the result never holds two whitespace characters in a row |
| BookParser.ExtractedTextNoTag | backend/book_parser.py:97-100 | the result contains no `<`, then one or more non-`>` characters, then `>` |
| BookParser.ExtractIdempotent | backend/book_parser.py:97-100 | extracting from an extracted text returns it unchanged |
| BookParser.ExtractedTextKeepsWords | backend/book_parser.py:97-100 | the extracted text has exactly the words of the HTML with its tags removed, in order |
| BookParser.PlainTextKeepsWords | backend/book_parser.py:93-100 | HTML without any `<` gives back its own words |
| TextToSpeech.GetAvailableVoices | backend/text_to_speech.py:9-48 | exactly three voices, with ids default, female, male in that order, all ru-RU |
| TextToSpeech.FindVoice | backend/text_to_speech.py:56-59 | the first entry with the id, and none exactly when no entry has it |
| TextToSpeech.ValidVoices | backend/text_to_speech.py:50-52 | a voice is valid exactly when it is default, female or male |
| TextToSpeech.ValidateVoice | backend/text_to_speech.py:50-52 | the `any` test over the table; TextToSpeech.ValidVoices and TextToSpeech.AnyHasIdIffFound state it |
| TextToSpeech.GetVoiceInfo | backend/text_to_speech.py:54-59 | the lookup in the table; TextToSpeech.InfoIffValid and TextToSpeech.LookupExamples state it |
| TextToSpeech.AnyHasIdIffFound | backend/text_to_speech.py:50-59 | the `any` test and the lookup loop agree on every table |
| TextToSpeech.InfoIffValid | backend/text_to_speech.py:50-59 | `get_voice_info` finds an entry exactly when `validate_voice` holds, and the entry carries that id |
| TextToSpeech.LookupExamples | backend/text_to_speech.py:54-59 | `female` finds the second entry; `robot` finds none |
| TextToSpeech.GenerateSpeech | backend/text_to_speech.py:30-44 | text and voice are echoed, with no audio and status ready, and the duration is 0.5 s per word of `split()` |
| TextToSpeech.SilenceIffBlank | backend/text_to_speech.py:42 | the duration is 0 exactly when the text is blank |
| TextToSpeech.DurationAdds | backend/text_to_speech.py:42 | texts joined by whitespace last as long as both together |
| TextToSpeech.GenerateDoesNotValidate | backend/text_to_speech.py:30-44 | an unknown voice is echoed without complaint, and the default voice is `default` |

## Left out

- The DOM is not modelled. This covers the word spans, the highlight class,
  `highlightCurrentWord`, `scrollIntoView`, `updatePageInfo`,
  `updatePlayButton` and `updateActiveContentItem`. Their only state is the
  display.
- The upload progress animation, drag and drop, and the page's decorative
  effects are not modelled. They hold no logic.
- The network upload (`fetch`, the JSON reply and its error alert) is not
  modelled; it is I/O. A successful reply is the input of `LoadBook`.
- The browser speech engine is not modelled. `getVoices` is an input list,
  and `speak`, `pause`, `resume` and `cancel` are entries in a log.
- `setInterval`, `setTimeout` and `Date.now` become a `Tick` event, an
  `AutoAdvance` event and a `now` parameter in seconds. The one-second delay
  before an auto-advance and the 50 ms period are not modelled.
- Playback.SetSpeed: the slider value is taken as a positive real. This
  leaves out `parseFloat`, `toFixed` and floating-point rounding of
  `0.4 / speed`.
- Timings are exact reals, not JavaScript doubles.
- The progress percentage in `updatePageInfo` is left out; it is display
  only.
- Text.ToLower: lower-cases ASCII letters only, one character for one.
  JavaScript's `toLowerCase` and Python's `lower` also map other scripts, and
  some characters lower-case to two code units: `İ` becomes `i` followed by a
  combining dot. The page cuts its lower-cased name at the index of the last
  dot in the original name. For `İ.pdf` it therefore compares the combining
  dot followed by `.pdf`, and rejects the file. Validation.IsSupportedFile and
  Validation.HandleFile accept it: the model judges names whose lower-case
  form changes length differently from the page.
- BookParser.Suffix: follows `Path.suffix` as in Python 3.13 and earlier.
  Python 3.14 also accepts a name ending in a dot.
- BookParser.FormatOf: takes the file name. `Path.suffix` of the full path
  depends only on the last path component.
- PyPDF2, ebooklib and lxml are not modelled, and neither is UTF-8 decoding.
  What they extract is the `LibraryView` input.
- The exceptions the parsers re-raise with a prefixed message are not
  modelled; they come from library failures.
- BookParser.DocumentTexts: its own contract bounds the length and says each
  text is stripped. Which texts it holds, and in what order, is stated by
  BookParser.DocumentTextsAppend and BookParser.DocumentTextsOne.
- BookParser.ParagraphTexts: its own contract bounds the length only. Which
  texts it holds, and in what order, is stated by
  BookParser.ParagraphTextsAppend and BookParser.ParagraphTextsOne.
- BookParser.Fb2Chapters: its own contract bounds the length only. Its
  contents are stated by BookParser.Fb2ChaptersAppend and
  BookParser.Fb2ChaptersOne.
- BookParser.ParseBook: `_parse_txt` is the file's text, passed through. The
  read itself is I/O.
- `backend/main.py` is not part of this model. It holds HTTP routing,
  file saving and a second copy of the extension check, and its
  `total_pages` is replaced on the page anyway.
- Playback.OnEnd: schedules an auto-advance only with a book present. In the
  source, `onend` with no book would throw, but the model's invariant rules
  that state out.
