# GBA game framework core, modelled in Dafny

This project models the integer core of a small Game Boy Advance game
framework (`src/game.h`, `src/game.cpp`):

- **Arithmetic.** Q24.8 fixed-point numbers and the 2D vector built on them.
  15-bit RGB colour packing.
- **The mode-3 framebuffer.** The 240x160 canvas of 16-bit cells:
  bounds-checked plotting, clearing, filled and outlined rectangles,
  Bresenham lines and midpoint circles.
- **The key sampler.** It keeps the current and previous key masks.
- **Game objects.** Their box collision test, and particles that fall,
  expire and fade.
- **The random-number utilities.** A 32-bit linear congruential generator
  and the range helper built on it.
- **The frame loop.** The game-state enumeration and the framework's part
  of each frame.

Modules follow the program:

- `Machine`: C integer widths, two's-complement wrap-around, C's truncating
  division.
- `Fixed`: `FixedPoint`, `Vec2`.
- `Color`: `RGB15`, `RGB8_TO_RGB15`, the colour constants.
- `Screen`: pixel addressing, and the buffer after a sequence of plots.
- `Rect`, `Line`, `Circle`: pure traces of the points each drawing loop
  passes to `plotPixel`, in order, with their properties.
- `MemUtil`: `fastMemSet16`, `fastMemCopy16`.
- `Video`: the `Display` class, whose methods run the source's loops over an
  `array` buffer.
- `Keys`: the `Input` class.
- `Utils`: the generator.
- `Entities`: `GameObject`, `Particle`.
- `Game`: `GameState`, `GbaGame`.

Every drawing method is proved against a trace. The buffer after the call
equals `PlotAll(old buffer, trace, colour)`: the effect of plotting the
trace's points one after another. The lemmas then state what the trace
covers, in points and in cells.

State that the source updates in place is a class field:

- The display buffer.
- The two key masks.
- The generator state.
- A particle's position, velocity, active flag and lifetime.
- The frame counter and game state.

Where the source uses globals (the key masks, the generator word), the
model keeps them as fields of an object. `Vec2::operator+=` and
`FixedPoint::operator+=` are reassignment with `VecAdd` and `Add`, as
`Particle.Update` does them.

These details of the code are easy to get wrong; the model follows them:

- **`toInt` floors.** It is an arithmetic shift right by 8, so it floors
  (raw -1 gives -1, not 0).
- **A non-positive size can still draw an outline.**
  `drawRectOutline` with width <= 0 and height >= 3 still plots the two
  columns x and x + width - 1. With height <= 0 and width >= 1 it plots the
  rows y and y + height - 1. It is empty exactly when width <= 0 and
  height <= 2 (`Rect.OutlineEmpty`).
- **`drawLine` can miss its end point.** With a major extent of 1 and a
  minor extent of 0, the initial
  error 0 steps the minor axis. So (0,0)-(1,0) plots (0,0) and (1,1)
  (`Line.ShortLineQuirk`). Every other line ends at (x2, y2).
- **A zero lifetime is accepted.** The particle constructor accepts a
  lifetime of 0 and the particle starts active. Rendering it before its
  first update divides by zero. `Particle.Render` therefore requires a
  non-zero `maxLifetime` for an active particle. After one update such a
  particle is inactive (`Entities.Lifespan`).
- **`randomRange` is defined for more than min <= max.** It is defined whenever
  `max - min + 1` neither overflows nor is 0. For those inputs the model
  computes what the unsigned arithmetic gives. The [min, max] guarantee is
  stated for min <= max.
- **The fade divides by truncation.** It uses C division, which truncates
  toward zero (`Machine.CDiv`). On the non-negative values it sees during a
  particle's life, this agrees with floor division.

## Model

| member | source | states |
|---|---|---|
| Machine.Wrap32 | src/game.h:89-99 | the int32 that two's-complement addition or subtraction leaves: congruent to the exact result modulo 2^32, and equal to it when it fits |
| Machine.WrapU32 | src/game.cpp:274 | the uint32 congruent to the exact result modulo 2^32, equal to it when it is in range |
| Machine.CDiv | src/game.cpp:254-258 | C division: agrees with floor division for a non-negative dividend and positive divisor; the remainder is smaller than the divisor in magnitude and zero or of the dividend's sign |
| Machine.Wrap32Absorb | src/game.h:107-110 | wrapping an intermediate sum does not change the final wrapped value, so chains of `+=` equal one wrapped sum |
| Machine.OneWrap | src/game.h:89-99 | the sum or difference of two int32 values differs from its wrapped value by at most one multiple of 2^32 |
| Fixed.FromInt | src/game.h:83 | `FixedPoint(int)` converts back with `toInt` to the same integer, and its raw value is a multiple of 256, whenever i * 256 fits in int32 |
| Fixed.ToInt | src/game.h:86 | `toInt` is floor division by 256: n*256 <= raw < n*256 + 256, and n is within the whole-number range |
| Fixed.Mul | src/game.h:101-105 | the raw result is the floor of the raw product over 256, wrapped to int32, in every case; when no narrowing happens it is that floor exactly |
| Fixed.MulNarrows | src/game.h:103 | a product one past the range narrows: 4096 * 4096 has raw value 0 |
| Fixed.Add | src/game.h:89-93 | `+`: the exact raw sum while it fits in int32, and otherwise the sum shifted by one multiple of 2^32; its algebra is SubUndoesAdd, AddCommutes, AddAssociates and AddOfInts |
| Fixed.Sub | src/game.h:95-99 | `-`: the exact raw difference while it fits, and otherwise shifted by one multiple of 2^32; AddUndoesSub and SubUndoesAdd make it the inverse of Add |
| Fixed.ToIntOfMinusOne | src/game.h:86 | raw -1 converts to -1, not 0 |
| Fixed.ToIntMonotone | src/game.h:86 | `toInt` is monotone in the raw value |
| Fixed.SubUndoesAdd | src/game.h:89-99 | (a + b) - b == a for all raw values, overflow included |
| Fixed.AddUndoesSub | src/game.h:89-99 | (a - b) + b == a for all raw values |
| Fixed.AddCommutes | src/game.h:89-93 | a + b == b + a |
| Fixed.AddAssociates | src/game.h:89-93 | wrapping addition is associative |
| Fixed.AddOfInts | src/game.h:83-93 | adding two whole numbers adds them while the sum is in range |
| Fixed.MulOfInts | src/game.h:101-105 | FixedPoint(a) * FixedPoint(b) is FixedPoint(a*b), and converts to a*b, when a*b*256 fits in int32 |
| Fixed.MulByOne | src/game.h:101-105 | multiplying by FixedPoint(1) is the identity on every raw value |
| Fixed.MulCommutes | src/game.h:101-105 | a * b == b * a |
| Fixed.VecFromInts | src/game.h:118 | `Vec2(int, int)` converts back to its two integers |
| Fixed.VecAdd | src/game.h:121-123 | component-wise `+`: each raw coordinate is the exact sum while it fits; VecAddAssociates and VecAddZero give its algebra |
| Fixed.VecSub | src/game.h:125-127 | component-wise `-`: each raw coordinate is the exact difference while it fits; VecSubUndoesAdd makes it the inverse of VecAdd |
| Fixed.VecSubUndoesAdd | src/game.h:121-127 | component-wise (a + b) - b == a |
| Fixed.VecAddAssociates | src/game.h:121-123 | vector addition is associative |
| Fixed.VecAddZero | src/game.h:117-123 | the default vector is the zero for addition |
| Color.Rgb15 | src/game.h:53-55 | the packed colour has bit 15 clear, and its three channels are the arguments' low five bits |
| Color.Rgb8ToRgb15 | src/game.h:57-59 | for 8-bit inputs each channel is the input's top five bits |
| Color.RepackChannels | src/game.h:53-55 | repacking the channels of any 16-bit cell gives the cell with bit 15 cleared |
| Color.UnpackChannels | src/game.h:53-55 | channels in 0..31 are recovered exactly by the three masks |
| Screen.Index | src/game.cpp:35 | the cell y*240 + x of an on-screen pixel is inside the 38400-cell buffer |
| Screen.IndexPixel | src/game.cpp:35 | the cell determines the pixel: x and y are its remainder and quotient by 240 |
| Screen.IndexInjective | src/game.cpp:35 | distinct on-screen pixels write distinct cells |
| Screen.CellPixel | src/game.cpp:35 | every cell is the address of exactly one on-screen pixel |
| Screen.IsValidPixel | src/game.cpp:127-129 | the on-screen test 0 <= x < 240 and 0 <= y < 160; no ensures of its own, Index and CellPixel show the on-screen pixels are exactly the buffer's cells |
| Screen.Plot | src/game.cpp:33-37 | one bounds-checked plotPixel on buffer contents; it keeps the buffer size, and PlotCell states which cell changes |
| Screen.PlotAll | src/game.cpp:33-37 | a sequence of plotPixel calls in order; it keeps the buffer size, and PlotAllCell, PlotAllSnoc and PlotAllAppend state its effect |
| Screen.PlotCell | src/game.cpp:33-37 | after one plot a cell holds the colour exactly when the point is on screen and addresses it, and keeps its value otherwise |
| Screen.PlotAllCell | src/game.cpp:33-37 | after a sequence of plots a cell holds the colour exactly when its pixel is one of the points, and keeps its old value otherwise |
| Screen.PlotAllCells | src/game.cpp:33-37 | the cell-by-cell statement for all on-screen pixels at once |
| Screen.PlotAllSnoc | src/game.cpp:33-37 | one more point in the trace is one more plot |
| Screen.PlotAllAppend | src/game.cpp:43-49 | plotting one trace and then another is plotting their concatenation |
| Rect.RowMembers | src/game.cpp:45-47 | drawRect's inner loop plots exactly the points (x..x+w-1, y) |
| Rect.RectMembers | src/game.cpp:43-49 | drawRect plots exactly the points of [x, x+w) x [y, y+h); nothing when w <= 0 or h <= 0 |
| Rect.TopBottomMembers | src/game.cpp:53-56 | the first outline loop plots exactly the columns [x, x+w) of rows y and y+h-1 |
| Rect.SidesMembers | src/game.cpp:58-61 | the second outline loop plots exactly the columns x and x+w-1 of the rows strictly between |
| Rect.OutlineMembers | src/game.cpp:51-62 | drawRectOutline's points are the union of the two loops' points, neither loop checking the other dimension |
| Rect.OutlineWithoutWidth | src/game.cpp:58-61 | with width <= 0 and height >= 3 the outline still plots the two columns x and x+w-1 and nothing else |
| Rect.OutlineWithoutHeight | src/game.cpp:53-56 | with height <= 0 and width >= 1 the outline still plots rows y and y+h-1 |
| Rect.OutlineEmpty | src/game.cpp:51-62 | the outline plots nothing exactly when width <= 0 and height <= 2 |
| Rect.Row | src/game.cpp:45-47 | the inner drawRect loop's points in order; no ensures of its own, RowMembers states its points |
| Rect.RectPoints | src/game.cpp:43-49 | drawRect's points, row by row; no ensures of its own, RectMembers states its points |
| Rect.TopBottom | src/game.cpp:53-56 | the first outline loop's points in order; no ensures of its own, TopBottomMembers states its points |
| Rect.Sides | src/game.cpp:58-61 | the second outline loop's points in order; no ensures of its own, SidesMembers states its points |
| Rect.OutlinePoints | src/game.cpp:51-62 | drawRectOutline's points, the first loop's before the second's; no ensures of its own, OutlineMembers, OutlineWithoutWidth, OutlineWithoutHeight and OutlineEmpty state them |
| Line.RunLength | src/game.cpp:77-85 | a loop of n iterations makes n plots |
| Line.RunShape | src/game.cpp:77-85 | a loop's plots start at (x, y) and each moves one step along the major axis and zero or one step along the minor axis |
| Line.RunMajor | src/game.cpp:77-85 | the k-th plot of a loop is k major steps from the start |
| Line.RunClosedForm | src/game.cpp:76-85 | while the error term stays in its Bresenham band, the minor offset of plot k is (err + k*minor + major - minor) / major |
| Line.LineClosedForm | src/game.cpp:64-98 | for a major extent of at least 2, plot k is k major steps and (k*minor + major - major/2) / major minor steps from (x1, y1) |
| Line.ClosedFormAlongX | src/game.cpp:75-85 | the closed form for the x-major loop |
| Line.ClosedFormAlongY | src/game.cpp:86-97 | the closed form for the y-major loop |
| Line.LineSteps | src/game.cpp:64-98 | drawLine makes max(\|dx\|, \|dy\|) + 1 plots, the first at (x1, y1), each one major step and at most one minor step from the one before |
| Line.LineDistinct | src/game.cpp:64-98 | no pixel is plotted twice |
| Line.LongLineEnds | src/game.cpp:64-98 | a line with major extent at least 2 ends at (x2, y2) |
| Line.ShortLineEnds | src/game.cpp:75-97 | a line of major extent 0 or 1 ends at (x2, y2) except for major extent 1 with minor extent 0, which ends one minor step off |
| Line.LineEnds | src/game.cpp:64-98 | the last plot is (x2, y2) in every case but the major-1, minor-0 one, which is stated exactly |
| Line.HorizontalLine | src/game.cpp:64-98 | drawLine(0,0,10,0) plots exactly (0,0) .. (10,0), in order |
| Line.DiagonalLine | src/game.cpp:64-98 | drawLine(0,0,5,5) plots exactly (0,0) .. (5,5), in order |
| Line.ShortLineQuirk | src/game.cpp:75-85 | drawLine(0,0,1,0) plots (0,0) and then (1,1) |
| Line.Run | src/game.cpp:75-97 | the remaining iterations of either Bresenham loop; no ensures of its own, RunLength, RunShape, RunMajor and RunClosedForm state its points |
| Line.LinePoints | src/game.cpp:64-98 | drawLine's points in order; no ensures of its own, LineSteps, LineDistinct, LineEnds and LineClosedForm state them |
| Circle.OctantMirrors | src/game.cpp:108-115 | each reflection of any of the eight plots of one iteration is one of those plots |
| Circle.OctantsClosed | src/game.cpp:108-115 | the eight plots of one iteration are closed under the eight reflections |
| Circle.CircleFromSymmetric | src/game.cpp:106-124 | every plot of the remaining iterations has all eight reflections plotted too |
| Circle.CircleSymmetric | src/game.cpp:100-125 | every offset drawCircle computes is plotted at all eight reflections about the centre |
| Circle.CircleFromBounded | src/game.cpp:106-124 | while 0 <= x and y <= r, every plot lies within r of the centre on both axes |
| Circle.IterationPlots | src/game.cpp:106-115 | an iteration that runs plots its eight points |
| Circle.CircleExtent | src/game.cpp:100-125 | every plot lies in the (2r+1)-square about the centre, and the four axis points at distance r are plotted |
| Circle.RadiusZero | src/game.cpp:100-125 | radius 0 plots the centre eight times and nothing else |
| Circle.NegativeRadius | src/game.cpp:102-106 | a negative radius plots nothing |
| Circle.Octants | src/game.cpp:108-115 | one iteration's eight plots in source order; no ensures of its own, OctantMirrors and OctantsClosed state its symmetry |
| Circle.CircleFrom | src/game.cpp:106-124 | the plots of the remaining midpoint iterations; no ensures of its own, CircleFromSymmetric, CircleFromBounded and IterationPlots state them |
| Circle.CirclePoints | src/game.cpp:100-125 | drawCircle's points in order; no ensures of its own, CircleSymmetric, CircleExtent, RadiusZero and NegativeRadius state them |
| MemUtil.FastMemSet16 | src/game.cpp:293-297 | the first count cells hold the value and the rest are unchanged |
| MemUtil.FastMemCopy16 | src/game.cpp:299-303 | the first count cells hold the source's cells and the rest are unchanged |
| Video.Display.constructor | src/game.cpp:25-27 | a new display owns a fresh 38400-cell buffer |
| Video.Display.IsValidPixel | src/game.cpp:127-129 | true exactly for 0 <= x < 240 and 0 <= y < 160 |
| Video.Display.GetPixel | src/game.cpp:131-136 | the cell of an on-screen pixel, and 0 for any off-screen query |
| Video.Display.PlotPixel | src/game.cpp:33-37 | writes only cell y*240 + x, and only for an on-screen pixel; afterwards GetPixel returns the colour there and the old value everywhere else |
| Video.Display.ClearScreen | src/game.cpp:39-41 | every one of the 38400 cells holds the colour |
| Video.Display.DrawRect | src/game.cpp:43-49 | the buffer is the old buffer after plotting RectPoints |
| Video.Display.DrawRow | src/game.cpp:45-47 | the inner loop: the buffer is the old buffer after plotting the row |
| Video.Display.DrawRectOutline | src/game.cpp:51-62 | the buffer is the old buffer after plotting OutlinePoints |
| Video.Display.DrawTopBottom | src/game.cpp:53-56 | the first outline loop plots the top and bottom rows in order |
| Video.Display.DrawSides | src/game.cpp:58-61 | the second outline loop plots the side columns in order |
| Video.Display.DrawLine | src/game.cpp:64-98 | the buffer is the old buffer after plotting LinePoints |
| Video.Display.LineAlongX | src/game.cpp:75-85 | the x-major loop plots its Bresenham run |
| Video.Display.LineAlongY | src/game.cpp:86-97 | the y-major loop plots its Bresenham run |
| Video.Display.DrawCircle | src/game.cpp:100-125 | the buffer is the old buffer after plotting CirclePoints |
| Video.Display.PlotOctants | src/game.cpp:108-115 | one iteration plots its eight reflections in the source's order |
| Video.RectCells | src/game.cpp:43-49 | after drawRect an on-screen cell holds the colour exactly when it is inside the rectangle, and keeps its old value otherwise |
| Video.OutlineCells | src/game.cpp:51-62 | after drawRectOutline an on-screen cell holds the colour exactly when it lies on one of the two row pairs or column pairs |
| Video.RectScenario | src/game.cpp:39-49 | clearing to black and filling (10,10, 5x5) in white leaves (12,12) white and (9,9) black |
| Keys.Sample | src/game.cpp:9 | a sample never has a bit outside the ten key bits |
| Keys.Input.constructor | src/game.cpp:4-5 | both masks start at 0 |
| Keys.Input.Update | src/game.cpp:7-10 | previous becomes the old current; current becomes the complemented reading masked to 0x3FF |
| Keys.Input.IsHeld | src/game.cpp:16-18 | some bit of the key is down in the current sample: nothing is held before the first sample, and an empty key is never held; IsPressed and IsReleased are stated against it |
| Keys.Input.IsPressed | src/game.cpp:12-14 | pressed implies held; two identical samples press nothing |
| Keys.Input.IsReleased | src/game.cpp:20-22 | released implies not held; from an all-zero previous mask nothing is released; two identical samples release nothing |
| Keys.SampleReadsActiveLow | src/game.cpp:9 | after a sample, key bit i is held exactly when the register bit i reads 0 |
| Keys.PressScenario | src/game.cpp:7-22 | A down in the second of two samples only: A is pressed and held and not released, B is none of these |
| Utils.Lcg | src/game.cpp:274 | the new state is state * 1664525 + 1013904223 modulo 2^32 |
| Utils.Draws | src/game.cpp:272-276 | the values drawn after seeding: n of them, the first one step from the seed and each later one a generator step from the previous |
| Utils.RangeOf | src/game.cpp:278-280 | for min <= max the result is min + draw % (max - min + 1), hence in [min, max] |
| Utils.LowBitAlternates | src/game.cpp:274 | each step flips the lowest state bit |
| Utils.CoinFlipsAlternate | src/game.cpp:278-280 | consecutive randomRange(0, 1) results strictly alternate |
| Utils.FirstDrawAfterGameSeed | src/game.cpp:309 | after the framework's seed 12345 the first draw is 87628868 |
| Utils.SameSeedSameDraws | src/game.cpp:268-276 | seeding a generator and calling random() n times returns exactly Draws(seed, n), so the same seed gives the same values |
| Utils.CoinFlips | src/game.cpp:268-280 | n successive randomRange(0, 1) calls after seeding return the draws mapped into [0, 1], each 0 or 1, each different from the one before |
| Utils.FlipsAlternate | src/game.cpp:278-280 | values that follow the draw sequence through randomRange(0, 1) lie in [0, 1] and alternate |
| Utils.Rng.constructor | src/game.cpp:266 | the state starts at 1 |
| Utils.Rng.Seed | src/game.cpp:268-270 | the state becomes the seed |
| Utils.Rng.Random | src/game.cpp:272-276 | the state advances by one generator step and the new state is returned |
| Utils.Rng.RandomRange | src/game.cpp:278-280 | one generator step, and the result maps the new state into the range |
| Entities.GameObject.constructor | src/game.h:211 | a new object is active, at the given whole-pixel position, with zero velocity; the position defaults to (0, 0) |
| Entities.GameObject.CollidesWith | src/game.cpp:220-228 | the boxes overlap exactly when the whole-pixel positions differ by less than the width on x and the height on y; 8x8 unless given; touching edges do not collide |
| Entities.CollisionSymmetric | src/game.cpp:220-228 | collision does not depend on which object asks |
| Entities.Step | src/game.cpp:236-248 | an inactive particle is unchanged; an active one moves by its old velocity, loses one lifetime, is active afterwards exactly when more than one lifetime was left, and gains the raw 25 of gravity in its vertical velocity, also on the frame it dies |
| Entities.Steps | src/game.cpp:236-248 | the state after n updates; no ensures of its own, Flight, Frozen, StepsAdd and Lifespan state it |
| Entities.StepsAdd | src/game.cpp:236-248 | a updates followed by b updates are a + b updates |
| Entities.Flight | src/game.cpp:236-248 | for n <= L updates of a particle with lifetime L >= 1 the state is the closed form: active until the L-th, lifetime L - n, vertical velocity raised by 25n and a wrapped discrete parabola for the position |
| Entities.Frozen | src/game.cpp:236-237 | an inactive particle never changes again |
| Entities.Lifespan | src/game.cpp:236-248 | with L >= 1 it is inactive after exactly L updates and unchanged by every later one; with L <= 0 one update makes it inactive |
| Entities.Alpha | src/game.cpp:254 | for 0 <= lifetime <= max the fade factor is in 0..31, and 31 at full lifetime |
| Entities.AlphaMonotone | src/game.cpp:254 | the fade factor is non-increasing as the lifetime falls |
| Entities.FadeChannel | src/game.cpp:256-258 | a faded channel is between 0 and the original channel, and the channel itself at factor 31 |
| Entities.ChannelMonotone | src/game.cpp:256-258 | a larger fade factor never gives a darker channel |
| Entities.Faded | src/game.cpp:255-259 | every channel of the faded colour is at most the original channel |
| Entities.FadedChannels | src/game.cpp:255-259 | the channels of the packed faded colour are the faded channels |
| Entities.FullLifetimeColour | src/game.cpp:253-259 | at full lifetime the particle renders its own colour with bit 15 cleared |
| Entities.FadeMonotone | src/game.cpp:253-259 | less lifetime left never gives a brighter channel |
| Entities.Particle.constructor | src/game.cpp:231-234 | the particle is active at the given position with the given velocity, colour, lifetime and maximum lifetime |
| Entities.Particle.State | src/game.h:230-241 | the particle's mutable fields as a ParticleState; no ensures of its own, Particle.Update is stated through it |
| Entities.Particle.Update | src/game.cpp:236-248 | the new particle state is Step of the old one |
| Entities.Particle.Render | src/game.cpp:250-262 | an active particle plots exactly one pixel, in the faded colour at its whole-pixel position; an inactive one leaves the buffer unchanged |
| Game.GbaGame.constructor | src/game.cpp:307-310 | the game starts on the title screen with frame counter 0 and the generator seeded with 12345 |
| Game.GbaGame.Frame | src/game.cpp:315-323 | one pass samples the keys and increments the frame counter, wrapping at 2^31, leaving the game state alone |
| Game.GbaGame.RunFrames | src/game.cpp:314-324 | after n passes the counter has advanced by n (wrapped) and the masks hold the last two samples |

## Left out

- Hardware registers. The display constructor's write to `REG_DISPCNT` and `setMode` are not modelled. The key register read is the `raw` parameter of `Input.Update`. `waitForVBlank` and `delay`, which busy-poll `REG_VCOUNT`, are left out.
- The game hooks. `initialize`, `handleInput`, `update` and `render` are abstract in the framework, so `GbaGame.Frame` covers only the key sample and the frame counter. `run` is an infinite loop, and `GbaGame.RunFrames` models its first n passes.
- Floating point. `FixedPoint(float)` and `toFloat` are not modelled; the only float the core uses is the gravity constant, which is its raw value 25.
- `BitmapFont`. It is glyph-table lookup, not an algorithm.
- Undefined functions. `drawSprite`, `drawScaledSprite`, `drawStringCentered` and `sin`/`cos`/`sqrt` are declared without definitions.
- `src/main.cpp`. It is a separate demo with its own display class and is not part of this model.
- Getters and setters. The object and game accessors are field reads and writes.
- Inheritance. A particle holds its game-object part as `body` instead of deriving from it. The same `CollidesWith` applies to `body`.
- Signed overflow. Pixel coordinates such as `x + dx` and `y * 240 + x`, the sums in `collidesWith`, `lifetime * 31` and `lifetime--` are computed with unbounded integers. The source agrees with them until an int32 overflows, which is undefined behaviour in C++.
- Global state as per-game objects. The key masks are class statics of `Input`, initialised once (src/game.h:139-140, src/game.cpp:4-5), and the generator word is a function-local static (src/game.cpp:266). The model makes them objects each `GbaGame` owns, so every new game starts with zero masks and state 1 before seeding; in the source only the first game does, since `GBAGame()` never resets the key statics.
- Game.GbaGame.Frame: wraps `frame_counter++` at 2^31, where the source's overflow is undefined.
- `volatile` and aliasing. The video buffer is an array the display owns. The source writes through a `volatile` pointer to device memory. `fastMemCopy16` copies between raw pointers that may overlap: `fastMemCopy16(buf + 1, buf, n)` copies forward and repeats `buf[0]` along the range. Two Dafny arrays are either the same array or disjoint, so `MemUtil.FastMemCopy16` does not capture a partial overlap; no operation of the core calls it.
