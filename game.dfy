/** The game framework: the state enumeration and the frame loop that samples
    the keys and counts frames. The game-specific hooks the loop calls
    (initialize, handleInput, update, render) are left to a concrete game. */
module Game {
  import opened Machine
  import opened Keys
  import opened Utils
  import opened Video

  datatype GameState = TitleScreen | Playing | Paused | GameOver

  /** The seed the framework installs. */
  const FrameworkSeed: u32 := 12345

  class GbaGame {
    const display: Display
    const input: Input
    const rng: Rng
    var state: GameState
    var frameCounter: i32

    constructor ()
      ensures fresh(display) && fresh(display.buffer) && display.Valid()
      ensures fresh(input) && input.current == 0 && input.previous == 0
      ensures fresh(rng) && rng.state == FrameworkSeed
      ensures state == TitleScreen && frameCounter == 0
    {
      display := new Display();
      input := new Input();
      var r := new Rng();
      r.Seed(FrameworkSeed);
      rng := r;
      state := TitleScreen;
      frameCounter := 0;
    }

    /** One pass of the main loop with the key register reading `raw`: the
        keys are sampled and the frame counter is incremented, wrapping at 2^31. */
    method Frame(raw: bv16)
      modifies this, input
      ensures input.previous == old(input.current) && input.current == Sample(raw)
      ensures frameCounter == Wrap32(old(frameCounter) + 1)
      ensures state == old(state)
    {
      input.Update(raw);
      frameCounter := Wrap32(frameCounter + 1);
    }

    /** The first |raws| passes of the main loop, the i-th reading raws[i]. */
    method RunFrames(raws: seq<bv16>)
      requires |raws| > 0
      modifies this, input
      ensures frameCounter == Wrap32(old(frameCounter) + |raws|)
      ensures input.current == Sample(raws[|raws| - 1])
      ensures |raws| >= 2 ==> input.previous == Sample(raws[|raws| - 2])
      ensures |raws| == 1 ==> input.previous == old(input.current)
      ensures state == old(state)
    {
      ghost var start := frameCounter;
      Frame(raws[0]);
      var i := 1;
      while i < |raws|
        invariant 1 <= i <= |raws|
        invariant frameCounter == Wrap32(start + i)
        invariant input.current == Sample(raws[i - 1])
        invariant i >= 2 ==> input.previous == Sample(raws[i - 2])
        invariant i == 1 ==> input.previous == old(input.current)
        invariant state == old(state)
      {
        Frame(raws[i]);
        Wrap32Absorb(start + i, 1);
        i := i + 1;
      }
    }
  }
}
