/** The pacing engine of the speed reader: the component's state as a value,
    one function per event that changes it, and the invariants those events
    keep. The class in `Component` performs the same transitions in place. */
module Playback {
  import opened Wrappers
  import Tokenizer
  import Pivot

  const MinWpm := 100
  const MaxWpm := 1000
  const DefaultWpm := 300
  const WheelStep := 10
  const MsPerMinute := 60000

  /** The state the pacing logic reads and writes: the textarea's value,
      the word list, the position, the play flag, the rate in words per
      minute and the time of the last advance (`lastTimeRef`). */
  datatype Reader = Reader(
    text: string,
    words: seq<string>,
    currentIndex: nat,
    isPlaying: bool,
    wpm: int,
    lastTime: Option<int>)

  /** The state when the component mounts. */
  const Initial := Reader("", [], 0, false, DefaultWpm, None)

  function Min(a: int, b: int): int { if a <= b then a else b }

  function Max(a: int, b: int): int { if a >= b then a else b }

  /** The last position the reader may stand on, `max(words.length - 1, 0)`. */
  function LastIndex(len: nat): nat {
    if len == 0 then 0 else len - 1
  }

  /** The position is on a word (or 0 for an empty list) and the rate is a
      multiple of the wheel step within the accepted range. */
  predicate Valid(s: Reader) {
    && s.currentIndex <= LastIndex(|s.words|)
    && MinWpm <= s.wpm <= MaxWpm
    && s.wpm % WheelStep == 0
  }

  lemma InitialValid()
    ensures Valid(Initial) && !Initial.isPlaying && Initial.wpm == DefaultWpm
  {
  }

  // ---------------------------------------------------------------- rate

  /** `Math.sign` of the wheel's `deltaY`. */
  function Sign(x: real): int {
    if x > 0.0 then 1 else if x < 0.0 then -1 else 0
  }

  /** `Math.max(100, Math.min(1000, x))`. */
  function ClampRate(x: int): (r: int)
    ensures MinWpm <= r <= MaxWpm
    ensures MinWpm <= x <= MaxWpm ==> r == x
    ensures x < MinWpm ==> r == MinWpm
    ensures x > MaxWpm ==> r == MaxWpm
  {
    Max(MinWpm, Min(MaxWpm, x))
  }

  /** The rate after one wheel event: scrolling up (negative `deltaY`) raises
      the rate by one step, scrolling down lowers it, and the result never
      leaves the accepted range, so the bounds absorb further scrolling. */
  function WheelRate(wpm: int, deltaY: real): (r: int)
    ensures MinWpm <= r <= MaxWpm
    ensures MinWpm <= wpm - WheelStep * Sign(deltaY) <= MaxWpm ==> r == wpm - WheelStep * Sign(deltaY)
    ensures MinWpm <= wpm <= MaxWpm ==>
      && (deltaY < 0.0 ==> wpm <= r <= wpm + WheelStep)
      && (deltaY > 0.0 ==> wpm - WheelStep <= r <= wpm)
      && (deltaY == 0.0 ==> r == wpm)
    ensures wpm == MaxWpm && deltaY < 0.0 ==> r == MaxWpm
    ensures wpm == MinWpm && deltaY > 0.0 ==> r == MinWpm
    ensures wpm % WheelStep == 0 ==> r % WheelStep == 0
  {
    ClampRate(wpm + Sign(deltaY) * -WheelStep)
  }

  // ---------------------------------------------------------------- events

  /** `handleTextChange`: the new text is split into words, and the reader
      goes back to the first word and stops; the rate and the last advance
      time are kept. */
  function SetText(s: Reader, value: string): (r: Reader)
    ensures r.text == value && r.words == Tokenizer.Tokenize(value)
    ensures r.currentIndex == 0 && !r.isPlaying
    ensures r.wpm == s.wpm && r.lastTime == s.lastTime
    ensures Valid(s) ==> Valid(r)
  {
    s.(text := value, words := Tokenizer.Tokenize(value), currentIndex := 0, isPlaying := false)
  }

  /** The play/pause button. Entering play also runs the effect that clears
      the last advance time, so the next tick only records a baseline;
      pausing keeps the position and the last advance time. Play is not
      refused on an empty or blank word list. */
  function Toggle(s: Reader): (r: Reader)
    ensures r.isPlaying == !s.isPlaying
    ensures r.isPlaying ==> r.lastTime == None
    ensures !r.isPlaying ==> r.lastTime == s.lastTime
    ensures r.text == s.text && r.words == s.words
    ensures r.currentIndex == s.currentIndex && r.wpm == s.wpm
    ensures Valid(s) ==> Valid(r)
  {
    if s.isPlaying then s.(isPlaying := false)
    else s.(isPlaying := true, lastTime := None)
  }

  /** The reset button: back to the first word, stopped; the words and the
      rate are kept. */
  function Reset(s: Reader): (r: Reader)
    ensures r.currentIndex == 0 && !r.isPlaying
    ensures r.text == s.text && r.words == s.words
    ensures r.wpm == s.wpm && r.lastTime == s.lastTime
    ensures Valid(s) ==> Valid(r)
  {
    s.(currentIndex := 0, isPlaying := false)
  }

  /** The clear button: no text, no words, first position, stopped; the rate
      is kept. */
  function Clear(s: Reader): (r: Reader)
    ensures r.text == [] && r.words == []
    ensures r.currentIndex == 0 && !r.isPlaying
    ensures r.wpm == s.wpm && r.lastTime == s.lastTime
    ensures Valid(s) ==> Valid(r)
  {
    s.(text := "", words := [], currentIndex := 0, isPlaying := false)
  }

  /** `handleWheel`: one wheel event over the display adjusts the rate and
      nothing else. */
  function Wheel(s: Reader, deltaY: real): (r: Reader)
    ensures r == s.(wpm := r.wpm)
    ensures r.wpm == WheelRate(s.wpm, deltaY)
    ensures MinWpm <= r.wpm <= MaxWpm
    ensures Valid(s) ==> Valid(r)
  {
    s.(wpm := WheelRate(s.wpm, deltaY))
  }

  // ---------------------------------------------------------------- pacing

  /** `!lastTimeRef.current` is false: a time is recorded and it is not 0
      (JavaScript reads both `null` and `0` as unset). */
  predicate HasBaseline(lastTime: Option<int>) {
    lastTime.Some? && lastTime.value != 0
  }

  /** `elapsed >= 60000 / wpm`, cleared of the division. */
  predicate Due(elapsed: int, wpm: int) {
    elapsed * wpm >= MsPerMinute
  }

  /** For a positive rate the integer test is the source's comparison against
      the milliseconds per word. */
  lemma DueIsMsPerWord(elapsed: int, wpm: int)
    requires wpm > 0
    ensures Due(elapsed, wpm) <==> elapsed as real >= MsPerMinute as real / wpm as real
  {
  }

  /** `animate(timestamp)`, reading the current rate. Without a baseline or
      while stopped it only records the time. Once a word's time has passed it
      moves to the next word, or stops on the last one; either way the time
      becomes the new baseline. Before that it changes nothing. */
  function Tick(s: Reader, timestamp: int): (r: Reader)
    ensures r.text == s.text && r.words == s.words && r.wpm == s.wpm
    ensures !s.isPlaying || !HasBaseline(s.lastTime) ==> r == s.(lastTime := Some(timestamp))
    ensures s.isPlaying && HasBaseline(s.lastTime) && !Due(timestamp - s.lastTime.value, s.wpm) ==> r == s
    ensures r.currentIndex == s.currentIndex || r.currentIndex == s.currentIndex + 1
    ensures r.currentIndex == s.currentIndex + 1 <==>
      && s.isPlaying && HasBaseline(s.lastTime)
      && Due(timestamp - s.lastTime.value, s.wpm)
      && s.currentIndex + 1 < |s.words|
    ensures r.isPlaying ==> s.isPlaying
    ensures s.isPlaying && !r.isPlaying ==> r.currentIndex == s.currentIndex && s.currentIndex + 1 >= |s.words|
    ensures r.lastTime == s.lastTime || r.lastTime == Some(timestamp)
    ensures s.isPlaying && HasBaseline(s.lastTime) && Due(timestamp - s.lastTime.value, s.wpm) ==>
      && r.lastTime == Some(timestamp)
      && (r.isPlaying <==> s.currentIndex + 1 < |s.words|)
    ensures Valid(s) ==> Valid(r)
  {
    if !s.isPlaying || !HasBaseline(s.lastTime) then
      s.(lastTime := Some(timestamp))
    else if !Due(timestamp - s.lastTime.value, s.wpm) then
      s
    else if s.currentIndex >= |s.words| - 1 then
      s.(isPlaying := false, lastTime := Some(timestamp))
    else
      s.(currentIndex := s.currentIndex + 1, lastTime := Some(timestamp))
  }

  /** The state after one tick per timestamp, in order. */
  function RunTicks(s: Reader, ts: seq<int>): Reader
    decreases |ts|
  {
    if ts == [] then s else RunTicks(Tick(s, ts[0]), ts[1..])
  }

  /** Any run of ticks keeps the invariant, the words and the rate, and
      moves forward by at most one word per tick. */
  lemma {:induction false} RunTicksBounds(s: Reader, ts: seq<int>)
    requires Valid(s)
    ensures var r := RunTicks(s, ts);
      && Valid(r)
      && r.text == s.text && r.words == s.words && r.wpm == s.wpm
      && s.currentIndex <= r.currentIndex <= s.currentIndex + |ts|
    decreases |ts|
  {
    if ts != [] {
      RunTicksBounds(Tick(s, ts[0]), ts[1..]);
    }
  }

  /** A list of at most one word never advances, whatever the clock does. */
  lemma {:induction false} RunTicksShort(s: Reader, ts: seq<int>)
    requires |s.words| <= 1
    ensures RunTicks(s, ts).currentIndex == s.currentIndex
    ensures RunTicks(s, ts).words == s.words
    decreases |ts|
  {
    if ts != [] {
      RunTicksShort(Tick(s, ts[0]), ts[1..]);
    }
  }

  /** While stopped, ticks only move the baseline to the latest time. */
  lemma {:induction false} RunTicksIdle(s: Reader, ts: seq<int>)
    requires !s.isPlaying
    ensures RunTicks(s, ts) == if ts == [] then s else s.(lastTime := Some(ts[|ts| - 1]))
    decreases |ts|
  {
    if ts != [] {
      RunTicksIdle(Tick(s, ts[0]), ts[1..]);
      if |ts| > 1 {
        assert ts[1..][|ts| - 2] == ts[|ts| - 1];
      }
    }
  }

  /** Each time comes at least `gap` after the one before it, the first at
      least `gap` after `prev`. */
  predicate Paced(prev: int, ts: seq<int>, gap: int) {
    && (ts != [] ==> ts[0] >= prev + gap)
    && forall k :: 0 < k < |ts| ==> ts[k] >= ts[k - 1] + gap
  }

  lemma DueLater(elapsed: int, gap: int, wpm: int)
    requires elapsed >= gap && wpm > 0 && Due(gap, wpm)
    ensures Due(elapsed, wpm)
  {
  }

  /** Playing with ticks spaced at least one word's time apart, every tick
      advances one word until the last one; the tick after that stops the
      reader on the last word, and later ticks leave it there. */
  lemma {:induction false} RunTicksPaced(s: Reader, ts: seq<int>, gap: int)
    requires Valid(s) && s.isPlaying
    requires s.lastTime.Some? && s.lastTime.value > 0
    requires gap > 0 && Due(gap, s.wpm) && Paced(s.lastTime.value, ts, gap)
    ensures var r := RunTicks(s, ts);
      && r.currentIndex == Min(s.currentIndex + |ts|, LastIndex(|s.words|))
      && (r.isPlaying <==> s.currentIndex + |ts| <= LastIndex(|s.words|))
      && (ts != [] ==> r.lastTime == Some(ts[|ts| - 1]))
    decreases |ts|
  {
    if ts != [] {
      var t0 := ts[0];
      assert t0 >= s.lastTime.value + gap;
      DueLater(t0 - s.lastTime.value, gap, s.wpm);
      var s1 := Tick(s, t0);
      var rest := ts[1..];
      assert RunTicks(s, ts) == RunTicks(s1, rest);
      if s.currentIndex < LastIndex(|s.words|) {
        assert s1.currentIndex == s.currentIndex + 1 && s1.isPlaying && s1.lastTime == Some(t0);
        assert Paced(t0, rest, gap) by {
          forall k | 0 < k < |rest|
            ensures rest[k] >= rest[k - 1] + gap
          {
            assert rest[k] == ts[k + 1] && rest[k - 1] == ts[k];
          }
          if rest != [] {
            assert rest[0] == ts[1];
          }
        }
        RunTicksPaced(s1, rest, gap);
        if rest != [] {
          assert rest[|rest| - 1] == ts[|ts| - 1];
        }
      } else {
        assert !s1.isPlaying && s1.currentIndex == s.currentIndex && s1.lastTime == Some(t0);
        RunTicksIdle(s1, rest);
        if rest != [] {
          assert rest[|rest| - 1] == ts[|ts| - 1];
        }
      }
    }
  }

  /** Four words at 600 words per minute (100 ms a word): after play, a first
      tick at 1000 ms records the baseline; the tick at 1100 ms shows the
      second word, and by the tick at 1400 ms the reader has stopped on the
      fourth. */
  lemma FourWordsAt600(s: Reader)
    requires Valid(s) && |s.words| == 4 && s.currentIndex == 0 && !s.isPlaying && s.wpm == 600
    ensures var b := Tick(Toggle(s), 1000);
      && RunTicks(b, [1100]).currentIndex == 1 && RunTicks(b, [1100]).isPlaying
      && RunTicks(b, [1100, 1200, 1300, 1400]).currentIndex == 3
      && !RunTicks(b, [1100, 1200, 1300, 1400]).isPlaying
  {
  }

  // ---------------------------------------------------------------- progress

  /** The progress bar's width in percent, `index / max(len - 1, 1) * 100`:
      within [0, 100] for any position on the list, 0 exactly on the first
      word, and 100 exactly on the last word of a list of two or more. */
  function Progress(index: nat, len: nat): (p: real)
    ensures p == 0.0 <==> index == 0
    ensures index <= LastIndex(len) ==> 0.0 <= p <= 100.0
    ensures index <= LastIndex(len) ==> (p == 100.0 <==> len >= 2 && index == len - 1)
  {
    var d := Max(len - 1, 1) as real;
    ProgressRatio(index, d);
    index as real / d * 100.0
  }

  lemma ProgressRatio(index: nat, d: real)
    requires d >= 1.0
    ensures (index as real / d * 100.0 == 0.0) <==> index == 0
    ensures index as real <= d ==> index as real / d * 100.0 <= 100.0
    ensures index as real / d * 100.0 == 100.0 <==> index as real == d
  {
  }

  /** Later positions never show less progress. */
  lemma ProgressMonotone(i: nat, j: nat, len: nat)
    requires i <= j
    ensures Progress(i, len) <= Progress(j, len)
  {
    var d := Max(len - 1, 1) as real;
    assert (j as real / d) - (i as real / d) == (j - i) as real / d;
  }

  /** Text with no visible character gives the list `[""]` rather than an
      empty list; on screen it acts like a cleared reader: no word parts,
      no progress, and no position past the first. */
  lemma BlankTextActsCleared(s: Reader, value: string)
    requires Tokenizer.AllWhitespace(value)
    ensures var a := SetText(s, value); var b := Clear(s);
      && a.words == [""] && b.words == []
      && Pivot.CurrentWord(a.words, a.currentIndex) == Pivot.NoParts
      && Pivot.CurrentWord(b.words, b.currentIndex) == Pivot.NoParts
      && Progress(a.currentIndex, |a.words|) == 0.0 == Progress(b.currentIndex, |b.words|)
      && LastIndex(|a.words|) == 0 == LastIndex(|b.words|)
  {
  }
}
