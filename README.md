# Speed reader pacing model

A Dafny model of the word-pacing logic of the `SpeedReader` component, a
rapid serial visual presentation (RSVP) reader. It shows pasted text one word
at a time, at a rate the user sets with the mouse wheel. The model covers
four things:

- how the textarea's value is split into words (`value.trim().split(/\s+/)`);
- how the word on display is split around its pivot letter (`getCurrentWord`);
- the playback state and the events that change it: text change,
  play/pause, reset, clear, wheel, and the per-frame `animate` tick;
- the progress percentage.

Files:

- `wrappers.dfy`: module `Wrappers`, the `Option` type used for `lastTimeRef`.
- `tokenizer.dfy`: module `Tokenizer`. ECMAScript's whitespace set, `trim`,
  `split(/\s+/)` on any string, and their composition `Tokenize`. The
  separators that `Split` consumes are given by `Gaps`. `Weave` puts fields
  and separators back together, which gives the round trip.
- `pivot.dfy`: module `Pivot`. The pivot decomposition and `getCurrentWord`.
- `playback.dfy`: module `Playback`. The component state as a value
  (`Reader`), one function per event, and lemmas about runs of ticks and
  about progress.
- `component.dfy`: module `Component`. The class `SpeedReader`, whose fields
  are the component's state. Its handlers update the fields in place, and
  each one is proved to perform the `Playback` function of the same name and
  to keep the invariant.

The invariant, `Playback.Valid`, says three things:

- the position is at most `max(words.length - 1, 0)`;
- the rate lies in [100, 1000];
- the rate is a multiple of 10.

The rate starts at 300 and moves in steps of 10, and the clamp bounds are
multiples of 10, so the last part holds too.

Time stamps are whole milliseconds. The test `elapsed >= 60000 / wpm` is
written `elapsed * wpm >= 60000`. `Playback.DueIsMsPerWord` proves that this
is the same test over the reals for every positive rate.

Behaviour the code has, stated as the code has it:

- Text with no visible character gives the one-element list `[""]`, not an
  empty list. `Clear` gives the empty list `[]`. Lemma
  `Playback.BlankTextActsCleared` shows that the two look the same on screen.
- Play is not refused on an empty or blank list. The first tick after play
  records the baseline. The next tick that is due stops the reader, since
  the position is already at the last index.
- The only rate control is the wheel. The component has no command that sets
  the rate directly, and no pause apart from the play/pause toggle.
- `!lastTimeRef.current` reads both `null` and `0` as "no baseline".
  `Playback.HasBaseline` keeps that, so a tick at time 0 records a time that
  the next tick still treats as unset.

## Model

| member | source | states |
|---|---|---|
| `Tokenizer.Lead` | components/speed-reader.tsx:40 | the leading run that `trim` drops: all whitespace, followed by a non-whitespace character or the end |
| `Tokenizer.Trail` | components/speed-reader.tsx:40 | the trailing run that `trim` drops: all whitespace, preceded by a non-whitespace character or the start |
| `Tokenizer.Trim` | components/speed-reader.tsx:40 | `trim()` returns a contiguous slice of the text, with only whitespace around it; the slice neither starts nor ends with whitespace, and it is empty exactly when the text is all whitespace |
| `Tokenizer.Split` | components/speed-reader.tsx:40 | `split(/\s+/)` always gives at least one field, and no field contains whitespace |
| `Tokenizer.Gaps` | components/speed-reader.tsx:40 | the separators that the split consumes: one fewer than the fields, each a non-empty run of whitespace |
| `Tokenizer.Tokenize` | components/speed-reader.tsx:40 | the word list is never empty |
| `Tokenizer.SplitThenWeave` | components/speed-reader.tsx:40 | round trip: putting each separator back between its two fields rebuilds the split string exactly, so the fields are its non-whitespace runs in source order |
| `Tokenizer.SplitFieldsNonEmpty` | components/speed-reader.tsx:40 | the first field is empty exactly when the string starts with whitespace; every later field is non-empty when the string does not end with whitespace |
| `Tokenizer.BlankText` | components/speed-reader.tsx:40 | the word list is `[""]` if and only if the text is all whitespace (the empty text included) |
| `Tokenizer.WordsOfText` | components/speed-reader.tsx:40 | for text with a visible character, every word is non-empty and free of whitespace, and the words with the separators between them rebuild the trimmed text |
| `Tokenizer.SplitCount` | components/speed-reader.tsx:40 | the split gives one field per maximal non-whitespace run, plus one empty field for a leading whitespace run and one for a trailing run or for the empty string |
| `Tokenizer.RunCountTrim` | components/speed-reader.tsx:40 | trimming keeps every non-whitespace run |
| `Tokenizer.WordCount` | components/speed-reader.tsx:40 | for text with a visible character, the number of words equals the number of maximal non-whitespace runs |
| `Pivot.Decompose` | components/speed-reader.tsx:49-54 | for a non-empty word: `before + middle + after` is the word, `middle` is one character, `after` is as long as `before` or one longer, and `before` has `Math.ceil(length / 2) - 1` characters (the ceiling taken over the reals); an empty word gives three empty strings |
| `Pivot.CeilHalf` | components/speed-reader.tsx:49 | `Math.ceil(n / 2)` (modelled by `Pivot.Ceil` over the reals) equals the integer `(n + 1) / 2` |
| `Pivot.DecomposeUnique` | components/speed-reader.tsx:49-54 | the balance condition determines the split: any prefix/one character/suffix split whose suffix is as long as the prefix or one longer is the one `getCurrentWord` shows |
| `Pivot.CurrentWord` | components/speed-reader.tsx:46-56 | when there is a non-empty word at the position, the parts are exactly `Decompose` of that word: they rebuild it around a one-character pivot at index `Math.ceil(length / 2) - 1`; when the position is past the list or the word is empty, the parts are three empty strings |
| `Playback.InitialValid` | components/speed-reader.tsx:15-19 | the mount state (no words, position 0, stopped, 300 words per minute) satisfies the invariant |
| `Playback.ClampRate` | components/speed-reader.tsx:106 | `Math.max(100, Math.min(1000, x))` lies in [100, 1000], is `x` when `x` is in range, and is the nearer bound otherwise |
| `Playback.WheelRate` | components/speed-reader.tsx:105-106 | one wheel event moves the rate by `-10 * sign(deltaY)` whenever that stays in range; the result is always in [100, 1000]; scrolling up never lowers the rate and scrolling down never raises it; 1000 stays 1000 on scrolling up and 100 stays 100 on scrolling down; a multiple of 10 stays one |
| `Playback.SetText` | components/speed-reader.tsx:38-44 | a text change stores the text and its word list, goes back to position 0 and stops; the rate and the last advance time are kept, and so is the invariant |
| `Playback.Toggle` | components/speed-reader.tsx:178 | the button flips the play flag; entering play clears the last advance time (the effect at lines 83-85), so that the next tick only records a baseline; pausing keeps it; the position, words and rate are untouched |
| `Playback.Reset` | components/speed-reader.tsx:185-188 | reset gives position 0 and stopped, and keeps the text, the words, the rate and the invariant |
| `Playback.Clear` | components/speed-reader.tsx:195-200 | clear empties the text and the word list, gives position 0 and stopped, and keeps the rate and the invariant |
| `Playback.Wheel` | components/speed-reader.tsx:103-107 | a wheel event changes the rate only, to `WheelRate` of the old rate and `deltaY` (`Math.sign` is `Playback.Sign`), so it inherits the step of `-10 * sign(deltaY)` and the saturation at both bounds; the rate stays within [100, 1000] |
| `Playback.DueIsMsPerWord` | components/speed-reader.tsx:65-68 | for a positive rate, `Playback.Due`, the test `elapsed * wpm >= 60000`, holds exactly when `elapsed >= 60000 / wpm` over the reals |
| `Playback.Tick` | components/speed-reader.tsx:58-80 | a tick while stopped or without a baseline (`Playback.HasBaseline`, where `null` and `0` both count as unset) only records the time; a tick before the word's time has passed (`Playback.Due`) changes nothing; a due tick records its time as the new baseline, moves the position up by exactly one when it was below the last index, and otherwise stops play with the position kept; a tick never starts play; the text, the words and the rate are untouched, and the invariant is kept |
| `Playback.RunTicksBounds` | components/speed-reader.tsx:58-80 | any sequence of ticks keeps the invariant (the position never passes `max(len - 1, 0)`), the words and the rate, and advances at most one word per tick |
| `Playback.RunTicksShort` | components/speed-reader.tsx:69-75 | a list of at most one word never advances, whatever times the ticks carry |
| `Playback.RunTicksIdle` | components/speed-reader.tsx:59-63 | while stopped, ticks only move the recorded time to the latest tick's time |
| `Playback.RunTicksPaced` | components/speed-reader.tsx:65-77 | while playing, with ticks at least one word's time apart: after `m` ticks from position `i` the position is `min(i + m, last)`, the reader is still playing exactly when `i + m <= last`, and the recorded time is the last tick's |
| `Playback.FourWordsAt600` | components/speed-reader.tsx:58-85 | four words at 600 words per minute: after play and a baseline tick at 1000 ms, the tick at 1100 ms shows the second word, and the ticks up to 1400 ms end stopped on the fourth word |
| `Playback.Progress` | components/speed-reader.tsx:99 | `index / max(len - 1, 1) * 100` is 0 exactly at position 0; for any position on the list it lies in [0, 100] and is 100 exactly at the last word of a list of two or more |
| `Playback.ProgressMonotone` | components/speed-reader.tsx:99 | a later position never shows less progress |
| `Playback.BlankTextActsCleared` | components/speed-reader.tsx:38-44 | blank text gives `[""]` where clear gives `[]`, and both show no word parts, 0 progress and a last index of 0 |
| `Component.SpeedReader.constructor` | components/speed-reader.tsx:15-29 | the fields start at the mount state, which satisfies the invariant |
| `Component.SpeedReader.SetText` | components/speed-reader.tsx:38-44 | the handler updates the fields in place to `Playback.SetText` of the old state, and keeps the invariant |
| `Component.SpeedReader.Toggle` | components/speed-reader.tsx:178 | the button and the play effect update the fields in place to `Playback.Toggle` of the old state |
| `Component.SpeedReader.Reset` | components/speed-reader.tsx:185-188 | the fields become `Playback.Reset` of the old state |
| `Component.SpeedReader.Clear` | components/speed-reader.tsx:195-200 | the fields become `Playback.Clear` of the old state |
| `Component.SpeedReader.Wheel` | components/speed-reader.tsx:103-107 | `handleWheel` updates the rate in place to `Playback.Wheel` of the old state, and keeps the rate invariant |
| `Component.SpeedReader.Tick` | components/speed-reader.tsx:58-80 | `animate(timestamp)` updates the fields in place to `Playback.Tick` of the old state, and keeps the invariant |
| `Component.SpeedReader.Progress` | components/speed-reader.tsx:98-101 | the progress bar's width at any state that satisfies the invariant lies in [0, 100] |

## Left out

- Rendering is not modelled: the JSX, CSS classes, icons, the `Button` component and the quarter marks on the progress bar. It is presentation built on foreign library calls.
- The colour and size menus, the click-outside `mousedown` listener, the font size and dark mode are not modelled. They are display settings with no effect on pacing.
- `requestAnimationFrame`, `cancelAnimationFrame`, `animationRef` and effect cleanup are left out. Scheduling is the host's clock. The model exposes one tick per frame, `Tick(timestamp)`, and a run of frames as `RunTicks`.
- `Tick` reads the live state. The source's `animate` is a closure over the `isPlaying` and `words` of the render that started the frame loop, and it reads the rate through `wpmRef`. The model assumes that the loop ends whenever play stops. The source gets this by cancelling the frame stored in `animationRef`.
- One consequence of that cancellation is outside the model. The frame requested at line 61, after the baseline tick, is not stored in `animationRef`. A pause, text change, reset or clear within that one frame therefore does not cancel the loop. The leaked `animate` keeps the `isPlaying == true` and the `words` of the render that started it, so it goes on advancing the index while the display shows paused. After a text change it can push the index past the new list's last index and the progress above 100. `Playback.Valid` and the [0, 100] progress bound hold in the model, where every handler acts on the live state, but not in the source under this race.
- `e.preventDefault()` in `handleWheel` (line 104) is not modelled. It stops the page from scrolling and has no effect on pacing.
- Time stamps are whole milliseconds, not `DOMHighResTimeStamp` fractions. The per-word interval is compared without division. The progress value is an exact real number, not an IEEE double.
- `Math.sign` of a `NaN` wheel delta is not modelled: `deltaY` is a real number.
- Strings are sequences of Unicode scalar values. JavaScript's `length` and indexing count UTF-16 code units, so a word with characters outside the Basic Multilingual Plane gets a different pivot in the source, which can split a surrogate pair.
- The `text` state is kept as a field, but the textarea that shows it is not modelled.
- `app/page.tsx`, `types/index.d.ts` and `next.config.ts` are not part of this model. They hold page scaffolding, a type declaration and build configuration, with no logic.
