/** The word-timing estimator of the reader page (script.js): one synthetic
    time window per word, computed at a fixed 0.4 s per word divided by the
    playback speed, re-anchored at the current elapsed time when the speed
    changes during playback, and searched by the highlight tick. */
module Timing {
  import opened Wrappers

  /** One entry of `wordTimings`: the window `[start, end)` in seconds since
      the playback attempt started, and the word it belongs to. */
  datatype WordTiming = WordTiming(start: real, end: real, word: string)

  /** Seconds per word at speed 1. */
  const BaseSecondsPerWord: real := 0.4

  /** `0.4 / currentSpeed`. */
  function BaseTimePerWord(speed: real): (base: real)
    requires speed > 0.0
    ensures base > 0.0
    ensures base * speed == BaseSecondsPerWord
  {
    BaseSecondsPerWord / speed
  }

  /** The window of `t` contains elapsed time `e`. */
  predicate Covers(t: WordTiming, e: real) {
    t.start <= e < t.end
  }

  /** What `calculateWordTimings` builds: word `i` gets the window
      `[i * base, (i + 1) * base)`. */
  function UniformTimings(words: seq<string>, base: real): (r: seq<WordTiming>)
    ensures |r| == |words|
    ensures forall i :: 0 <= i < |r| ==> r[i].word == words[i] && r[i].end - r[i].start == base
    ensures |r| > 0 ==> r[0].start == 0.0
    ensures forall i :: 0 <= i < |r| - 1 ==> r[i].end == r[i + 1].start
  {
    seq(|words|, i requires 0 <= i < |words| =>
      WordTiming(i as real * base, (i + 1) as real * base, words[i]))
  }

  /** What `recalculateWordTimings` leaves in `wordTimings` when the list is
      not empty: with `k` the highlighted index, `e` the elapsed time and
      `base` the new time per word, entries before `k` are rewritten from time
      0 and entries from `k` on are laid out from `e`. Only the windows change. */
  function Reanchored(ts: seq<WordTiming>, k: nat, e: real, base: real): (r: seq<WordTiming>)
  {
    seq(|ts|, i requires 0 <= i < |ts| => ReanchoredEntry(ts[i], i, k, e, base))
  }

  /** The rewrite of entry `i` alone. */
  function ReanchoredEntry(t: WordTiming, i: nat, k: nat, e: real, base: real): WordTiming
  {
    if i < k then t.(start := i as real * base, end := (i + 1) as real * base)
    else t.(start := e + (i - k) as real * base, end := e + (i - k + 1) as real * base)
  }

  /** The first window, in index order, that contains `e`: the linear scan of
      the highlight tick. */
  function FirstWindow(ts: seq<WordTiming>, e: real): (r: Option<nat>)
    ensures r.Some? ==> r.value < |ts| && Covers(ts[r.value], e)
    ensures r.Some? ==> forall j :: 0 <= j < r.value ==> !Covers(ts[j], e)
    ensures r.None? ==> forall j :: 0 <= j < |ts| ==> !Covers(ts[j], e)
  {
    if |ts| == 0 then None
    else if Covers(ts[0], e) then Some(0)
    else match FirstWindow(ts[1..], e)
      case None => None
      case Some(i) => Some(i + 1)
  }

  // ------------------------------------------------------------------------
  // Properties of the estimator

  /** Uniform windows tile `[0, n * base)`: elapsed time `e` in that range
      falls in the window of word `floor(e / base)` and in no earlier one. */
  lemma UniformFindsWordAt(words: seq<string>, base: real, e: real)
    requires base > 0.0 && 0.0 <= e < |words| as real * base
    ensures var i := (e / base).Floor;
      0 <= i < |words| && FirstWindow(UniformTimings(words, base), e) == Some(i)
  {
    var ts := UniformTimings(words, base);
    var i := FloorBelow(e, base, |words|);
    UniformEarlierMiss(words, base, e, i);
    UniformCovers(words, base, e, i);
    FirstIsLeast(ts, e, i);
  }

  /** Below `n * base`, `floor(e / base)` is a word index whose window, in a
      layout `base` wide, holds `e`. */
  lemma FloorBelow(e: real, base: real, n: nat) returns (i: nat)
    requires base > 0.0 && 0.0 <= e < n as real * base
    ensures i == (e / base).Floor && i < n
    ensures i as real * base <= e < (i + 1) as real * base
  {
    var f := (e / base).Floor;
    FloorWindow(e, base);
    assert f < n by {
      if f >= n {
        ScaleMonotone(n as real, f as real, base);
      }
    }
    i := f;
  }

  lemma UniformCovers(words: seq<string>, base: real, e: real, i: nat)
    requires i < |words| && i as real * base <= e < (i + 1) as real * base
    ensures Covers(UniformTimings(words, base)[i], e)
  {
  }

  /** Once `e >= i * base`, every uniform window before `i` ends by `e`. */
  lemma UniformEarlierMiss(words: seq<string>, base: real, e: real, i: nat)
    requires i <= |words| && base > 0.0 && e >= i as real * base
    ensures forall j :: 0 <= j < i ==> !Covers(UniformTimings(words, base)[j], e)
  {
    forall j | 0 <= j < i ensures !Covers(UniformTimings(words, base)[j], e) {
      EndsBy(j, i, e, base);
    }
  }

  /** Window `j` of a layout `base` wide ends by the start of window `i > j`. */
  lemma EndsBy(j: nat, i: nat, e: real, base: real)
    requires j < i && base > 0.0 && e >= i as real * base
    ensures (j + 1) as real * base <= e
  {
    ScaleMonotone((j + 1) as real, i as real, base);
  }

  lemma ScaleMonotone(a: real, b: real, base: real)
    requires a <= b && base > 0.0
    ensures a * base <= b * base
  {
  }

  lemma ScaleStrict(a: real, b: real, base: real)
    requires a < b && base > 0.0
    ensures a * base < b * base
  {
  }

  lemma ScaleStep(x: real, base: real)
    ensures (x + 1.0) * base == x * base + base
  {
  }

  /** `floor(e / base)` names the window of `e` in a uniform layout. */
  lemma FloorWindow(e: real, base: real)
    requires base > 0.0 && e >= 0.0
    ensures var i := (e / base).Floor;
      i >= 0 && i as real * base <= e < (i + 1) as real * base
  {
    var q := e / base;
    var i := q.Floor;
    assert q * base == e;
    assert i as real <= q < i as real + 1.0;
    ScaleMonotone(i as real, q, base);
    assert (i + 1) as real == i as real + 1.0;
    ScaleStrict(q, (i + 1) as real, base);
    assert e < (i + 1) as real * base;
    assert i >= 0;
  }

  /** Re-anchoring keeps the number of entries and every entry's word; an
      empty list stays empty. */
  lemma ReanchoredKeepsWords(ts: seq<WordTiming>, k: nat, e: real, base: real)
    ensures var r := Reanchored(ts, k, e, base);
      |r| == |ts| && forall i :: 0 <= i < |ts| ==> r[i].word == ts[i].word
    ensures ts == [] ==> Reanchored(ts, k, e, base) == []
  {
  }

  /** From the highlighted word on, windows are `base` wide, contiguous and
      the first of them starts at `e`. */
  lemma ReanchoredFromCurrent(ts: seq<WordTiming>, k: nat, e: real, base: real)
    ensures var r := Reanchored(ts, k, e, base);
      && (k < |r| ==> r[k].start == e)
      && (forall i :: k <= i < |r| ==> r[i].end - r[i].start == base)
      && (forall i :: k <= i < |r| - 1 ==> r[i].end == r[i + 1].start)
  {
    var r := Reanchored(ts, k, e, base);
    forall i | k <= i < |r| ensures r[i].end - r[i].start == base {
      assert r[i].start == e + (i - k) as real * base;
      assert r[i].end == e + (i - k + 1) as real * base;
      assert (i - k + 1) as real == (i - k) as real + 1.0;
      ScaleStep((i - k) as real, base);
    }
    forall i | k <= i < |r| - 1 ensures r[i].end == r[i + 1].start {
      assert r[i].end == e + (i - k + 1) as real * base;
      assert r[i + 1].start == e + (i + 1 - k) as real * base;
    }
  }

  /** Before the highlighted word, windows are the uniform windows of the new
      speed, counted from time 0. */
  lemma ReanchoredBeforeCurrent(ts: seq<WordTiming>, k: nat, e: real, base: real)
    ensures var r := Reanchored(ts, k, e, base);
      forall i :: 0 <= i < k && i < |r| ==>
        r[i].start == i as real * base && r[i].end == (i + 1) as real * base
  {
  }

  /** After re-anchoring at `e`, the tick's scan at `e` lands on the
      highlighted word `k` exactly when every rewritten earlier window ends by
      `e`, that is when `e >= k * base`. Otherwise (slowing down late in a
      page) an earlier word's window contains `e` and the highlight jumps
      back: the rewritten entries before `k` are not dead. */
  lemma ReanchoredScanLandsOnCurrent(ts: seq<WordTiming>, k: nat, e: real, base: real)
    requires k < |ts| && base > 0.0 && e >= 0.0
    ensures FirstWindow(Reanchored(ts, k, e, base), e) == Some(k) <==> e >= k as real * base
    ensures e < k as real * base ==>
      FirstWindow(Reanchored(ts, k, e, base), e).Some? && FirstWindow(Reanchored(ts, k, e, base), e).value < k
  {
    var r := Reanchored(ts, k, e, base);
    ReanchoredCoversCurrent(ts, k, e, base);
    if e >= k as real * base {
      ReanchoredEarlierMiss(ts, k, e, base);
      FirstIsLeast(r, e, k);
    } else {
      var i := ReanchoredEarlierHit(ts, k, e, base);
      assert FirstWindow(r, e).value <= i;
    }
  }

  /** The highlighted word's new window starts at `e`, so it holds `e`. */
  lemma ReanchoredCoversCurrent(ts: seq<WordTiming>, k: nat, e: real, base: real)
    requires k < |ts| && base > 0.0
    ensures Covers(Reanchored(ts, k, e, base)[k], e)
  {
    var t := ReanchoredEntry(ts[k], k, k, e, base);
    assert t.start == e + 0.0 * base;
    assert t.end == e + 1.0 * base;
  }

  /** Once `e >= k * base`, every rewritten window before `k` ends by `e`. */
  lemma ReanchoredEarlierMiss(ts: seq<WordTiming>, k: nat, e: real, base: real)
    requires k <= |ts| && base > 0.0 && e >= k as real * base
    ensures forall j :: 0 <= j < k ==> !Covers(Reanchored(ts, k, e, base)[j], e)
  {
    forall j | 0 <= j < k ensures !Covers(Reanchored(ts, k, e, base)[j], e) {
      EndsBy(j, k, e, base);
    }
  }


  /** Before `k * base`, the rewritten window of `floor(e / base)`, an index
      below `k`, holds `e`. */
  lemma ReanchoredEarlierHit(ts: seq<WordTiming>, k: nat, e: real, base: real) returns (i: nat)
    requires k <= |ts| && base > 0.0 && 0.0 <= e < k as real * base
    ensures i < k && Covers(Reanchored(ts, k, e, base)[i], e)
  {
    i := FloorBelow(e, base, k);
    assert Reanchored(ts, k, e, base)[i] == ReanchoredEntry(ts[i], i, k, e, base);
  }

  lemma FirstIsLeast(ts: seq<WordTiming>, e: real, k: nat)
    requires k < |ts| && Covers(ts[k], e)
    requires forall j :: 0 <= j < k ==> !Covers(ts[j], e)
    ensures FirstWindow(ts, e) == Some(k)
  {
  }

  /** The worked example: three words at speed 1 get the windows
      [0, 0.4), [0.4, 0.8), [0.8, 1.2), and at 0.5 s the second word is found. */
  lemma ThreeWordExample()
    ensures UniformTimings(["One", "two", "three"], BaseTimePerWord(1.0))
      == [WordTiming(0.0, 0.4, "One"), WordTiming(0.4, 0.8, "two"), WordTiming(0.8, 1.2, "three")]
    ensures FirstWindow(UniformTimings(["One", "two", "three"], BaseTimePerWord(1.0)), 0.5) == Some(1)
  {
    var ts := UniformTimings(["One", "two", "three"], BaseTimePerWord(1.0));
    assert ts[0] == WordTiming(0.0, 0.4, "One");
    assert ts[1] == WordTiming(0.4, 0.8, "two");
    assert ts[2] == WordTiming(0.8, 1.2, "three");
    FirstIsLeast(ts, 0.5, 1);
  }

  /** The worked example of a speed change: from speed 1 to speed 2 while
      word 1 is highlighted at 0.5 s, word 1 now starts at 0.5 and word 2 at
      0.7. */
  lemma SpeedUpExample()
    ensures var r := Reanchored(UniformTimings(["One", "two", "three"], BaseTimePerWord(1.0)), 1, 0.5, BaseTimePerWord(2.0));
      r == [WordTiming(0.0, 0.2, "One"), WordTiming(0.5, 0.7, "two"), WordTiming(0.7, 0.9, "three")]
  {
    var r := Reanchored(UniformTimings(["One", "two", "three"], BaseTimePerWord(1.0)), 1, 0.5, BaseTimePerWord(2.0));
    assert r[0] == WordTiming(0.0, 0.2, "One");
    assert r[1] == WordTiming(0.5, 0.7, "two");
    assert r[2] == WordTiming(0.7, 0.9, "three");
  }
}
