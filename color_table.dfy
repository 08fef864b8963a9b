/** The six-sector hue wheel of `color` (Animation.c): the integer sector
    `(int)hs` selects a row of a fixed table, and the ramp byte `255 * x`
    fills the one channel that varies inside the sector. */
module ColorTable {
  import opened Pixels
  import opened Wrappers

  /** One channel is 255, another is 0, and the remaining one is `v`. */
  predicate FullOffRamp(c: Rgb, v: byte) {
    || (c.r == 255 && c.b == 0 && c.g == v)
    || (c.g == 255 && c.b == 0 && c.r == v)
    || (c.g == 255 && c.r == 0 && c.b == v)
    || (c.b == 255 && c.r == 0 && c.g == v)
    || (c.b == 255 && c.g == 0 && c.r == v)
    || (c.r == 255 && c.g == 0 && c.b == v)
  }

  /** The switch of `color`. There is no default case: for a sector outside
      0..6 control falls off the end of the C function and its result is
      undefined, which is modelled as None. */
  function SectorColor(sector: int, ramp: byte): (c: Option<Rgb>)
    ensures c.Some? <==> 0 <= sector <= 6
    ensures 0 <= sector < 6 ==> c.Some? && FullOffRamp(c.value, ramp)
    ensures sector == 6 ==> c == Some(Rgb(255, 0, 0))
  {
    match sector
    case 0 => Some(Rgb(255, ramp, 0))
    case 1 => Some(Rgb(ramp, 255, 0))
    case 2 => Some(Rgb(0, 255, ramp))
    case 3 => Some(Rgb(0, ramp, 255))
    case 4 => Some(Rgb(ramp, 0, 255))
    case 5 => Some(Rgb(255, 0, ramp))
    case 6 => Some(Rgb(255, 0, 0))
    case _ => None
  }

  function Abs(a: int): int {
    if a < 0 then -a else a
  }

  /** The ramp byte 255 * x at an edge of a sector, as a limit value. With
      h the hue position and x = 1 - |fmod(h, 2) - 1|, x rises from 0 to 1
      across an even sector and falls from 1 to 0 across an odd one; the
      edge sits at h = sector (start) or h = sector + 1 (end). */
  function EdgeRamp(sector: int, atEnd: bool): (v: byte)
    ensures v == 0 || v == 255
    ensures v == 255 * (1 - Abs((sector + (if atEnd then 1 else 0)) % 2 - 1))
  {
    if (sector % 2 == 0) == atEnd then 255 else 0
  }

  /** Neighbouring sectors agree where they meet: with the ramp at its limit
      values, the colour at the end of sector k equals the colour at the
      start of sector k + 1. */
  lemma SectorEdgesMeet(k: int)
    requires 0 <= k < 6
    ensures SectorColor(k, EdgeRamp(k, true)) == SectorColor(k + 1, EdgeRamp(k + 1, false))
  {
  }

  /** Sector 6 (the hue position exactly 6, i.e. the argument 2*pi) has the
      colour of the start of sector 0, whatever the ramp byte. */
  lemma FullTurnIsSectorZero(v: byte)
    ensures SectorColor(6, v) == SectorColor(0, EdgeRamp(0, false))
  {
  }
}
