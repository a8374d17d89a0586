/**
 * What the scheduler reads off the sky at sunrise of a day: the apparent
 * ecliptic longitudes of the sun and the moon, and the three indices it
 * derives from them (tithi, solar sign, nakshatra).
 */
module Sky {

  import opened CivilDate

  /** An ecliptic longitude in degrees, in `[0, 360)`. */
  type Degrees = x: real | 0.0 <= x < 360.0

  /** Sun and moon longitudes observed at 01:00 UTC (sunrise on the west coast) of a day. */
  datatype SkyAt = SkyAt(sun: Degrees, moon: Degrees)

  /**
   * The ephemeris `de421.bsp`: missing (`PLANETS is None`), or loaded, in
   * which case it gives the sky of every day.
   */
  datatype Ephemeris = Unavailable | Available(at: Date -> SkyAt)

  /**
   * `(moon - sun) % 360`: Python's `%` on floats takes the sign of the
   * divisor, so the elongation is the one value in `[0, 360)` that differs
   * from `moon - sun` by a whole number of turns.
   */
  function Elongation(s: SkyAt): (r: Degrees)
    ensures r == s.moon - s.sun || r == s.moon - s.sun + 360.0
  {
    if s.moon >= s.sun then s.moon - s.sun else s.moon - s.sun + 360.0
  }

  /** Only one angle in `[0, 360)` is congruent to `moon - sun`, so `Elongation` is that one. */
  lemma ElongationUnique(s: SkyAt, a: real, k: int)
    requires 0.0 <= a < 360.0 && a == s.moon - s.sun + 360.0 * k as real
    ensures a == Elongation(s)
  {
  }

  /** `int(angle / 12) + 1`: the lunar day, 12 degrees of elongation each. */
  function TithiOf(s: SkyAt): (r: int)
    ensures 1 <= r <= 30
  {
    (Elongation(s) / 12.0).Floor + 1
  }

  /** Tithi `r` covers the elongations from `12 (r - 1)` up to, not including, `12 r` degrees. */
  lemma TithiSpan(s: SkyAt)
    ensures 12.0 * (TithiOf(s) - 1) as real <= Elongation(s) < 12.0 * TithiOf(s) as real
  {
  }

  /** `int(sun / 30) + 1`: the zodiac sign of the sun, 1 being Mesha. */
  function SunSign(s: SkyAt): (r: int)
    ensures 1 <= r <= 12
  {
    (s.sun / 30.0).Floor + 1
  }

  /** Sign `r` covers the solar longitudes from `30 (r - 1)` up to, not including, `30 r` degrees. */
  lemma SunSignSpan(s: SkyAt)
    ensures 30.0 * (SunSign(s) - 1) as real <= s.sun < 30.0 * SunSign(s) as real
  {
  }

  /** `int(moon / (360 / 27)) + 1`: the lunar mansion of the moon. */
  function NakshatraOf(s: SkyAt): (r: int)
    ensures 1 <= r <= 27
  {
    (s.moon / (360.0 / 27.0)).Floor + 1
  }

  /** Nakshatra `r` covers the lunar longitudes from `(r - 1)` up to, not including, `r` twenty-sevenths of a turn. */
  lemma NakshatraSpan(s: SkyAt)
    ensures (360.0 / 27.0) * (NakshatraOf(s) - 1) as real <= s.moon < (360.0 / 27.0) * NakshatraOf(s) as real
  {
  }

  /** Waxing half (Shukla, tithis 1..15) exactly when the moon is less than 180 degrees ahead. */
  lemma WaxingHalf(s: SkyAt)
    ensures TithiOf(s) <= 15 <==> Elongation(s) < 180.0
  {
    TithiSpan(s);
  }
}
