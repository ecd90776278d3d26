/** Game objects: a position, a velocity and an active flag, with a box
    overlap test on whole-pixel positions; and the particle, a game object
    that falls under a constant gravity, counts its lifetime down, dies when it
    reaches zero and fades its colour with the lifetime left. */
module Entities {
  import opened Machine
  import opened Fixed
  import opened Color
  import opened Screen
  import opened Video

  class GameObject {
    var position: Vec2
    var velocity: Vec2
    var active: bool

    constructor (x: int := 0, y: int := 0)
      requires MinWhole <= x < MaxWhole && MinWhole <= y < MaxWhole
      ensures position == VecFromInts(x, y) && velocity == VecZero && active
    {
      position := VecFromInts(x, y);
      velocity := VecZero;
      active := true;
    }

    /** The width x height boxes anchored at the two whole-pixel positions
        overlap: the boxes are half-open, so boxes that only touch along an
        edge do not collide, and a non-positive size never collides. */
    function CollidesWith(other: GameObject, width: int := 8, height: int := 8): (r: bool)
      reads this, other
      ensures r <==> Abs(ToInt(position.x) - ToInt(other.position.x)) < width &&
                     Abs(ToInt(position.y) - ToInt(other.position.y)) < height
    {
      var x1, y1 := ToInt(position.x), ToInt(position.y);
      var x2, y2 := ToInt(other.position.x), ToInt(other.position.y);
      x1 < x2 + width && x1 + width > x2 && y1 < y2 + height && y1 + height > y2
    }
  }

  /** Collision does not depend on which of the two objects asks. */
  lemma CollisionSymmetric(a: GameObject, b: GameObject, width: int, height: int)
    ensures a.CollidesWith(b, width, height) == b.CollidesWith(a, width, height)
  {
    var dx, dy := ToInt(a.position.x) - ToInt(b.position.x), ToInt(a.position.y) - ToInt(b.position.y);
    assert Abs(dx) == Abs(-dx) && Abs(dy) == Abs(-dy);
  }

  /** The part of a particle that update changes. */
  datatype ParticleState = ParticleState(position: Vec2, velocity: Vec2, active: bool, lifetime: int)

  /** `FixedPoint(0.1f)`: 0.1 * 256 truncated to 25 raw units. */
  const Gravity: FixedPoint := FixedPoint(25)

  /** One update: an inactive particle is left alone; an active one moves by
      its velocity, loses one unit of lifetime, deactivates once the lifetime
      is no longer positive, and then gains the gravity in its vertical
      velocity. */
  function Step(s: ParticleState): (t: ParticleState)
    ensures !s.active ==> t == s
    ensures t.active <==> s.active && s.lifetime > 1
    ensures s.active ==> t.lifetime == s.lifetime - 1 && t.position == VecAdd(s.position, s.velocity)
    ensures s.active ==> t.velocity == Vec2(s.velocity.x, Add(s.velocity.y, Gravity))
  {
    if !s.active then s
    else
      var life := s.lifetime - 1;
      ParticleState(VecAdd(s.position, s.velocity), Vec2(s.velocity.x, Add(s.velocity.y, Gravity)),
                    life > 0, life)
  }

  /** The state after n updates. */
  function Steps(s: ParticleState, n: nat): ParticleState
    decreases n
  {
    if n == 0 then s else Step(Steps(s, n - 1))
  }

  /** 0 + 1 + ... + (n - 1). */
  function Tri(n: nat): (t: nat)
    ensures 2 * t == n * (n - 1)
  {
    if n == 0 then 0 else Tri(n - 1) + (n - 1)
  }

  /** Wrapping both summands does not change a wrapped sum. */
  lemma Wrap32AbsorbBoth(x: int, y: int)
    ensures Wrap32(Wrap32(x) + Wrap32(y)) == Wrap32(x + y)
  {
    Wrap32Absorb(x, Wrap32(y));
    Wrap32Absorb(y, x);
  }

  /** The n-th point of the discrete parabola from p with initial speed v and
      constant acceleration g: p + n*v + g*(0 + 1 + ... + (n-1)). */
  function Parabola(p: int, v: int, g: int, n: nat): int {
    p + n * v + Tri(n) * g
  }

  lemma ParabolaStep(p: int, v: int, g: int, n: nat)
    requires n >= 1
    ensures Parabola(p, v, g, n) == Parabola(p, v, g, n - 1) + (v + (n - 1) * g)
  {
    assert n * v == (n - 1) * v + v;
    assert Tri(n) * g == Tri(n - 1) * g + (n - 1) * g;
  }

  lemma LinearStep(p: int, v: int, n: nat)
    requires n >= 1
    ensures p + n * v == (p + (n - 1) * v) + v
  {
  }

  /** The closed form of n updates of a particle with lifetime L >= 1, n <= L. */
  function Flown(s: ParticleState, n: nat): ParticleState {
    ParticleState(
      Vec2(FixedPoint(Wrap32(s.position.x.raw + n * s.velocity.x.raw)),
           FixedPoint(Wrap32(Parabola(s.position.y.raw, s.velocity.y.raw, Gravity.raw, n)))),
      Vec2(s.velocity.x, FixedPoint(Wrap32(s.velocity.y.raw + n * Gravity.raw))),
      n < s.lifetime,
      s.lifetime - n)
  }

  lemma FlownStep(s: ParticleState, n: nat)
    requires 1 <= n <= s.lifetime
    ensures Step(Flown(s, n - 1)) == Flown(s, n)
  {
    var p, v, g := s.position, s.velocity, Gravity.raw;
    var t := Flown(s, n - 1);
    var u := Step(t);
    LinearStep(p.x.raw, v.x.raw, n);
    Wrap32Absorb(p.x.raw + (n - 1) * v.x.raw, v.x.raw);
    assert u.position.x == Flown(s, n).position.x;
    LinearStep(v.y.raw, g, n);
    Wrap32Absorb(v.y.raw + (n - 1) * g, g);
    assert u.velocity == Flown(s, n).velocity;
    ParabolaStep(p.y.raw, v.y.raw, g, n);
    Wrap32AbsorbBoth(Parabola(p.y.raw, v.y.raw, g, n - 1), v.y.raw + (n - 1) * g);
    assert u.position.y == Flown(s, n).position.y;
  }

  /** The flight of a particle with lifetime L >= 1: for n <= L updates it is
      active until the L-th, its lifetime is L - n, its vertical velocity has
      gained n times the gravity and its position follows the discrete
      parabola, all in wrapping 32-bit raw arithmetic. */
  lemma {:induction false} Flight(s: ParticleState, n: nat)
    requires s.active && 1 <= s.lifetime && n <= s.lifetime
    ensures Steps(s, n) == Flown(s, n)
    decreases n
  {
    if n == 0 {
      assert Flown(s, 0).position == s.position;
      assert Flown(s, 0).velocity == s.velocity;
    } else {
      Flight(s, n - 1);
      FlownStep(s, n);
    }
  }

  /** An inactive particle never changes again. */
  lemma {:induction false} Frozen(s: ParticleState, n: nat)
    requires !s.active
    ensures Steps(s, n) == s
    decreases n
  {
    if n > 0 {
      Frozen(s, n - 1);
    }
  }

  lemma {:induction false} StepsAdd(s: ParticleState, a: nat, b: nat)
    ensures Steps(s, a + b) == Steps(Steps(s, a), b)
    decreases b
  {
    if b > 0 {
      StepsAdd(s, a, b - 1);
      assert Steps(s, a + b) == Step(Steps(s, a + (b - 1)));
    }
  }

  /** A particle created with lifetime L >= 1 is inactive after exactly L
      updates, and every later update leaves it as it is. One created with a
      lifetime of 0 or less is inactive after its first update. */
  lemma Lifespan(s: ParticleState, m: nat)
    requires s.active
    ensures 1 <= s.lifetime ==> !Steps(s, s.lifetime).active &&
                                Steps(s, s.lifetime + m) == Steps(s, s.lifetime)
    ensures s.lifetime <= 0 ==> !Step(s).active
  {
    if 1 <= s.lifetime {
      Flight(s, s.lifetime);
      assert !Flown(s, s.lifetime).active;
      StepsAdd(s, s.lifetime, m);
      Frozen(Steps(s, s.lifetime), m);
    }
  }

  /** `(lifetime * 31) / max_lifetime` in C division. */
  function Alpha(lifetime: int, maxLifetime: int): (a: int)
    requires maxLifetime != 0
    ensures 0 <= lifetime <= maxLifetime ==> 0 <= a <= 31
    ensures lifetime == maxLifetime ==> a == 31
  {
    AlphaBounds(lifetime, maxLifetime);
    CDiv(lifetime * 31, maxLifetime)
  }

  lemma AlphaBounds(lifetime: int, maxLifetime: int)
    requires maxLifetime != 0
    ensures 0 <= lifetime <= maxLifetime ==> 0 <= CDiv(lifetime * 31, maxLifetime) <= 31
    ensures lifetime == maxLifetime ==> CDiv(lifetime * 31, maxLifetime) == 31
  {
    var m := Abs(maxLifetime);
    assert Abs(maxLifetime * 31) == m * 31;
    DivUnique(m * 31, m, 31, 0);
    if 0 <= lifetime <= maxLifetime {
      MulMonotone(31, lifetime, maxLifetime);
      DivMonotone(lifetime * 31, maxLifetime * 31, maxLifetime);
    }
  }

  /** `channel * alpha / 31` in C division. */
  function FadeChannel(channel: int, alpha: int): (v: int)
    ensures 0 <= channel <= 31 && 0 <= alpha <= 31 ==> 0 <= v <= channel
    ensures alpha == 31 ==> v == channel
  {
    ChannelBounds(channel, alpha);
    CDiv(channel * alpha, 31)
  }

  lemma ChannelBounds(channel: int, alpha: int)
    ensures 0 <= channel <= 31 && 0 <= alpha <= 31 ==> 0 <= CDiv(channel * alpha, 31) <= channel
    ensures alpha == 31 ==> CDiv(channel * alpha, 31) == channel
  {
    if alpha == 31 {
      assert Abs(channel * 31) == Abs(channel) * 31;
      DivUnique(Abs(channel) * 31, 31, Abs(channel), 0);
    }
    if 0 <= channel <= 31 && 0 <= alpha <= 31 {
      MulMonotone(channel, alpha, 31);
      MulMonotone(channel, 0, alpha);
      DivMonotone(channel * alpha, channel * 31, 31);
      DivUnique(channel * 31, 31, channel, 0);
    }
  }

  /** The colour render plots: each channel scaled by alpha / 31. */
  function Faded(color: u16, lifetime: int, maxLifetime: int): (c: u16)
    requires maxLifetime != 0
    ensures 0 <= lifetime <= maxLifetime ==>
              RedOf(c) <= RedOf(color) && GreenOf(c) <= GreenOf(color) && BlueOf(c) <= BlueOf(color)
  {
    var a := Alpha(lifetime, maxLifetime);
    var r, g, b := FadeChannel(RedOf(color), a), FadeChannel(GreenOf(color), a), FadeChannel(BlueOf(color), a);
    ChannelRange(color);
    if 0 <= lifetime <= maxLifetime then
      UnpackChannels(r, g, b);
      Rgb15(r, g, b)
    else
      Rgb15(r, g, b)
  }

  /** The channels of the faded colour are the faded channels. */
  lemma FadedChannels(color: u16, lifetime: int, maxLifetime: int)
    requires 0 <= lifetime <= maxLifetime && maxLifetime != 0
    ensures RedOf(Faded(color, lifetime, maxLifetime)) == FadeChannel(RedOf(color), Alpha(lifetime, maxLifetime))
    ensures GreenOf(Faded(color, lifetime, maxLifetime)) == FadeChannel(GreenOf(color), Alpha(lifetime, maxLifetime))
    ensures BlueOf(Faded(color, lifetime, maxLifetime)) == FadeChannel(BlueOf(color), Alpha(lifetime, maxLifetime))
  {
    var a := Alpha(lifetime, maxLifetime);
    ChannelRange(color);
    UnpackChannels(FadeChannel(RedOf(color), a), FadeChannel(GreenOf(color), a), FadeChannel(BlueOf(color), a));
  }

  lemma MulMonotone(c: int, a1: int, a2: int)
    requires 0 <= c && a1 <= a2
    ensures c * a1 <= c * a2
  {
    assert c * a2 - c * a1 == c * (a2 - a1);
  }

  lemma DivMonotone(x: int, y: int, d: int)
    requires 0 < d && x <= y
    ensures x / d <= y / d
  {
    if x / d > y / d {
      MulAtLeastDivisor(x / d - y / d, d);
    }
  }

  /** A particle at full lifetime renders in its own colour (bit 15 cleared). */
  lemma FullLifetimeColour(color: u16, maxLifetime: int)
    requires maxLifetime != 0
    ensures Faded(color, maxLifetime, maxLifetime) == color % 0x8000
  {
    RepackChannels(color);
  }

  /** Less lifetime left never gives a brighter channel. */
  lemma FadeMonotone(color: u16, l1: int, l2: int, maxLifetime: int)
    requires 0 <= l1 <= l2 <= maxLifetime && maxLifetime != 0
    ensures RedOf(Faded(color, l1, maxLifetime)) <= RedOf(Faded(color, l2, maxLifetime))
    ensures GreenOf(Faded(color, l1, maxLifetime)) <= GreenOf(Faded(color, l2, maxLifetime))
    ensures BlueOf(Faded(color, l1, maxLifetime)) <= BlueOf(Faded(color, l2, maxLifetime))
  {
    var a1, a2 := Alpha(l1, maxLifetime), Alpha(l2, maxLifetime);
    AlphaMonotone(l1, l2, maxLifetime);
    FadedChannels(color, l1, maxLifetime);
    FadedChannels(color, l2, maxLifetime);
    ChannelRange(color);
    ChannelMonotone(RedOf(color), a1, a2);
    ChannelMonotone(GreenOf(color), a1, a2);
    ChannelMonotone(BlueOf(color), a1, a2);
  }

  lemma AlphaMonotone(l1: int, l2: int, maxLifetime: int)
    requires 0 <= l1 <= l2 <= maxLifetime && maxLifetime != 0
    ensures Alpha(l1, maxLifetime) <= Alpha(l2, maxLifetime)
  {
    MulMonotone(31, l1, l2);
    MulMonotone(31, 0, l1);
    DivMonotone(l1 * 31, l2 * 31, maxLifetime);
  }

  lemma ChannelMonotone(channel: int, a1: int, a2: int)
    requires 0 <= channel <= 31 && 0 <= a1 <= a2 <= 31
    ensures FadeChannel(channel, a1) <= FadeChannel(channel, a2)
  {
    MulMonotone(channel, a1, a2);
    MulMonotone(channel, 0, a1);
    DivMonotone(channel * a1, channel * a2, 31);
  }

  class Particle {
    /** The game-object part. */
    const body: GameObject
    const color: u16
    var lifetime: int
    const maxLifetime: int

    constructor (x: int, y: int, vx: FixedPoint, vy: FixedPoint, c: u16, life: int)
      requires MinWhole <= x < MaxWhole && MinWhole <= y < MaxWhole
      ensures fresh(body)
      ensures State() == ParticleState(VecFromInts(x, y), Vec2(vx, vy), true, life)
      ensures color == c && maxLifetime == life
    {
      var b := new GameObject(x, y);
      b.velocity := Vec2(vx, vy);
      body := b;
      color := c;
      lifetime := life;
      maxLifetime := life;
    }

    function State(): ParticleState
      reads this, body
    {
      ParticleState(body.position, body.velocity, body.active, lifetime)
    }

    method Update()
      modifies this, body
      ensures State() == Step(old(State()))
    {
      if !body.active {
        return;
      }
      body.position := VecAdd(body.position, body.velocity);
      lifetime := lifetime - 1;
      if lifetime <= 0 {
        body.active := false;
      }
      body.velocity := Vec2(body.velocity.x, Add(body.velocity.y, Gravity));
    }

    /** An active particle plots one pixel in its faded colour at its
        whole-pixel position; an inactive one draws nothing. The source divides
        by the original lifetime, so an active particle created with lifetime
        0 cannot be rendered. */
    method Render(display: Display)
      requires display.Valid()
      requires body.active ==> maxLifetime != 0
      modifies display.buffer
      ensures body.active ==>
                display.buffer[..] == Plot(old(display.buffer[..]),
                                           Point(ToInt(body.position.x), ToInt(body.position.y)),
                                           Faded(color, lifetime, maxLifetime))
      ensures !body.active ==> display.buffer[..] == old(display.buffer[..])
    {
      if !body.active {
        return;
      }
      var alpha := CDiv(lifetime * 31, maxLifetime);
      var faded := Rgb15(CDiv(RedOf(color) * alpha, 31), CDiv(GreenOf(color) * alpha, 31),
                         CDiv(BlueOf(color) * alpha, 31));
      display.PlotPixel(ToInt(body.position.x), ToInt(body.position.y), faded);
    }
  }
}
