/** 15-bit colours: red in bits 0-4, green in bits 5-9, blue in bits 10-14,
    bit 15 unused. On two's-complement integers `v & 0x1F` is `v % 32` and an
    arithmetic `v >> k` is `v / 2^k` (both Euclidean in Dafny), and an OR of
    disjoint bit fields is their sum; the definitions below use that form. */
module Color {
  import opened Machine

  /** `c & 0x1F` */
  function RedOf(c: int): int { c % 32 }
  /** `(c >> 5) & 0x1F` */
  function GreenOf(c: int): int { (c / 32) % 32 }
  /** `(c >> 10) & 0x1F` */
  function BlueOf(c: int): int { (c / 1024) % 32 }

  /** Packs the low five bits of each channel; higher bits of an argument are dropped. */
  function Rgb15(r: int, g: int, b: int): (c: u16)
    ensures c < 0x8000
    ensures RedOf(c) == r % 32 && GreenOf(c) == g % 32 && BlueOf(c) == b % 32
  {
    var lo, mid, hi := r % 32, g % 32, b % 32;
    assert (lo + mid * 32 + hi * 1024) / 32 == mid + hi * 32;
    assert (lo + mid * 32 + hi * 1024) / 1024 == hi;
    lo + mid * 32 + hi * 1024
  }

  /** Converts 8-bit channels by keeping their top five bits (`v >> 3`). */
  function Rgb8ToRgb15(r: int, g: int, b: int): (c: u16)
    ensures c < 0x8000
    ensures 0 <= r < 256 ==> RedOf(c) == r / 8
    ensures 0 <= g < 256 ==> GreenOf(c) == g / 8
    ensures 0 <= b < 256 ==> BlueOf(c) == b / 8
  {
    Rgb15(r / 8, g / 8, b / 8)
  }

  /** Repacking the three channels of a cell value yields it with bit 15 cleared. */
  lemma RepackChannels(c: u16)
    ensures Rgb15(RedOf(c), GreenOf(c), BlueOf(c)) == c % 0x8000
  {
    var r, q := c % 32, c / 32;
    var g, p := q % 32, q / 32;
    var b, t := p % 32, p / 32;
    assert c == p * 1024 + (r + 32 * g);
    DivUnique(c, 1024, p, r + 32 * g);
    assert c == t * 0x8000 + (r + 32 * g + 1024 * b);
    DivUnique(c, 0x8000, t, r + 32 * g + 1024 * b);
    assert RedOf(c) == r && GreenOf(c) == g && BlueOf(c) == b;
    assert r % 32 == r && g % 32 == g && b % 32 == b;
    assert Rgb15(r, g, b) == r + g * 32 + b * 1024;
  }

  /** Channels already in 0..31 come back out of Rgb15 unchanged. */
  lemma UnpackChannels(r: int, g: int, b: int)
    requires 0 <= r < 32 && 0 <= g < 32 && 0 <= b < 32
    ensures RedOf(Rgb15(r, g, b)) == r && GreenOf(Rgb15(r, g, b)) == g && BlueOf(Rgb15(r, g, b)) == b
  {
    var c := Rgb15(r, g, b);
    assert RedOf(c) == r % 32 && GreenOf(c) == g % 32 && BlueOf(c) == b % 32;
  }

  /** Every channel value is in 0..31. */
  lemma ChannelRange(c: int)
    ensures 0 <= RedOf(c) < 32 && 0 <= GreenOf(c) < 32 && 0 <= BlueOf(c) < 32
  {
  }

  const Black: u16 := Rgb15(0, 0, 0)
  const White: u16 := Rgb15(31, 31, 31)
  const Red: u16 := Rgb15(31, 0, 0)
  const Green: u16 := Rgb15(0, 31, 0)
  const Blue: u16 := Rgb15(0, 0, 31)
  const Yellow: u16 := Rgb15(31, 31, 0)
  const Magenta: u16 := Rgb15(31, 0, 31)
  const Cyan: u16 := Rgb15(0, 31, 31)
  const Gray: u16 := Rgb15(16, 16, 16)
  const DarkGray: u16 := Rgb15(8, 8, 8)
}
