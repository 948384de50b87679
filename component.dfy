/** The `SpeedReader` component's pacing state as an object whose event
    handlers update its fields in place. Each handler is proved to perform
    the transition of the same name in `Playback`, and to keep the
    position and rate invariant. */
module Component {
  import opened Wrappers
  import Tokenizer
  import Playback

  class SpeedReader {
    var text: string
    var words: seq<string>
    var currentIndex: nat
    var isPlaying: bool
    var wpm: int
    var lastTime: Option<int>

    /** The fields as one value. */
    function State(): Playback.Reader
      reads this
    {
      Playback.Reader(text, words, currentIndex, isPlaying, wpm, lastTime)
    }

    predicate Valid()
      reads this
    {
      Playback.Valid(State())
    }

    /** The `useState` and `useRef` initial values. */
    constructor ()
      ensures Valid() && State() == Playback.Initial
    {
      text := "";
      words := [];
      currentIndex := 0;
      isPlaying := false;
      wpm := Playback.DefaultWpm;
      lastTime := None;
    }

    method SetText(value: string)
      requires Valid()
      modifies this
      ensures Valid() && State() == Playback.SetText(old(State()), value)
    {
      text := value;
      words := Tokenizer.Tokenize(value);
      currentIndex := 0;
      isPlaying := false;
    }

    /** The play/pause button, with the effect that runs when play begins. */
    method Toggle()
      requires Valid()
      modifies this
      ensures Valid() && State() == Playback.Toggle(old(State()))
    {
      isPlaying := !isPlaying;
      if isPlaying {
        lastTime := None;
      }
    }

    method Reset()
      requires Valid()
      modifies this
      ensures Valid() && State() == Playback.Reset(old(State()))
    {
      currentIndex := 0;
      isPlaying := false;
    }

    method Clear()
      requires Valid()
      modifies this
      ensures Valid() && State() == Playback.Clear(old(State()))
    {
      text := "";
      words := [];
      currentIndex := 0;
      isPlaying := false;
    }

    method Wheel(deltaY: real)
      requires Valid()
      modifies this
      ensures Valid() && State() == Playback.Wheel(old(State()), deltaY)
    {
      var delta := Playback.Sign(deltaY) * -Playback.WheelStep;
      wpm := Playback.ClampRate(wpm + delta);
    }

    /** One animation frame at time `timestamp`. */
    method Tick(timestamp: int)
      requires Valid()
      modifies this
      ensures Valid() && State() == Playback.Tick(old(State()), timestamp)
    {
      if !isPlaying || !Playback.HasBaseline(lastTime) {
        lastTime := Some(timestamp);
        return;
      }
      var elapsed := timestamp - lastTime.value;
      if Playback.Due(elapsed, wpm) {
        if currentIndex >= |words| - 1 {
          isPlaying := false;
        } else {
          currentIndex := currentIndex + 1;
        }
        lastTime := Some(timestamp);
      }
    }

    /** The progress bar's width: within [0, 100] at every state satisfying
        `Valid()`. */
    method Progress() returns (percent: real)
      requires Valid()
      ensures 0.0 <= percent <= 100.0
      ensures percent == Playback.Progress(currentIndex, |words|)
    {
      percent := Playback.Progress(currentIndex, |words|);
    }
  }
}
