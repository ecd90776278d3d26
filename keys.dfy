/** The key-input edge sampler. The hardware register reports a pressed key as
    a 0 bit; each sample stores the complement masked to the ten key bits and
    keeps the sample before it, so a press or release is a change between the
    two masks. The register read is the parameter of Update. */
module Keys {
  const KeyA: bv16 := 0x0001
  const KeyB: bv16 := 0x0002
  const KeySelect: bv16 := 0x0004
  const KeyStart: bv16 := 0x0008
  const KeyRight: bv16 := 0x0010
  const KeyLeft: bv16 := 0x0020
  const KeyUp: bv16 := 0x0040
  const KeyDown: bv16 := 0x0080
  const KeyR: bv16 := 0x0100
  const KeyL: bv16 := 0x0200

  /** The ten key bits. */
  const KeyMask: bv16 := 0x3FF

  /** What one sample stores for the register reading `raw`: the complement
      of the active-low bits, masked to the ten keys. */
  function Sample(raw: bv16): (m: bv16)
    ensures m & !KeyMask == 0
  {
    !raw & KeyMask
  }

  class Input {
    var current: bv16
    var previous: bv16

    constructor ()
      ensures current == 0 && previous == 0
    {
      current, previous := 0, 0;
    }

    /** One sample of the key register `raw`. */
    method Update(raw: bv16)
      modifies this
      ensures previous == old(current)
      ensures current == Sample(raw)
    {
      previous := current;
      current := !raw & KeyMask;
    }

    /** Some bit of `key` is down in the current sample. */
    predicate IsHeld(key: bv16)
      reads this
      ensures current == 0 ==> !IsHeld(key)
      ensures IsHeld(key) ==> key != 0
    {
      current & key != 0
    }

    /** Some bit of `key` is down now, and `key` was fully up in the sample before. */
    predicate IsPressed(key: bv16)
      reads this
      ensures IsPressed(key) ==> IsHeld(key)
      ensures previous == current ==> !IsPressed(key)
    {
      current & key != 0 && previous & key == 0
    }

    /** `key` is fully up now, and some bit of it was down in the sample before. */
    predicate IsReleased(key: bv16)
      reads this
      ensures IsReleased(key) ==> !IsHeld(key)
      ensures previous == 0 ==> !IsReleased(key)
      ensures previous == current ==> !IsReleased(key)
    {
      current & key == 0 && previous & key != 0
    }
  }

  /** A key bit whose register bit is 0 is held after the sample; one whose
      register bit is 1 is not. */
  lemma {:induction false} SampleReadsActiveLow(input: Input, raw: bv16, i: nat)
    requires i < 10
    requires input.current == Sample(raw)
    ensures input.IsHeld(1 << i) <==> raw & (1 << i) == 0
  {
    assert KeyMask & (1 << i) == 1 << i by {
      assert i == 0 || i == 1 || i == 2 || i == 3 || i == 4 || i == 5 || i == 6 || i == 7 || i == 8 || i == 9;
    }
  }

  /** With A down in the second of two samples only: A is pressed and held, not
      released, and B is none of the three. */
  method PressScenario() returns (pressed: bool, held: bool, released: bool, other: bool)
    ensures pressed && held && !released && !other
  {
    var input := new Input();
    input.Update(0x3FF);
    input.Update(0x3FE);
    pressed := input.IsPressed(KeyA);
    held := input.IsHeld(KeyA);
    released := input.IsReleased(KeyA);
    other := input.IsPressed(KeyB) || input.IsHeld(KeyB) || input.IsReleased(KeyB);
  }
}
