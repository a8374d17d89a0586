/**
 * The lookup tables of the `mappings` module (lunar months, pakshas,
 * tithis, solar months, nakshatras, festival rules). Their contents are
 * not part of this model: they are finite maps from Kannada words to
 * values, and the searches only rely on the shape stated by `Fits`.
 */
module Vocabulary {

  /** A `FESTIVAL_RULES` entry: `rule["type"]`, `rule["month"]`, `rule["paksha"]`, `rule["tithi"]`. */
  datatype Rule = Rule(kind: string, month: int, paksha: string, tithi: int)

  datatype Tables = Tables(
    lunarMonths: map<string, int>,
    paksha: map<string, string>,
    tithis: map<string, int>,
    solarMonths: map<string, int>,
    nakshatras: map<string, int>,
    festivalRules: map<string, Rule>)

  /** The paksha value that shifts a tithi into the waning half. */
  const Krishna: string := "Krishna"

  /**
   * `approx_month = month + 2`, brought back into range by one subtraction
   * of 12: the civil month in which lunar month `month` roughly falls.
   */
  function LunarWindowMonth(month: int): (r: int)
    ensures 1 <= month <= 12 ==> 1 <= r <= 12 && r == (month + 1) % 12 + 1
  {
    if month + 2 > 12 then month + 2 - 12 else month + 2
  }

  /** `start_greg_month = month + 3`, brought back by one subtraction of 12. */
  function SolarWindowMonth(month: int): (r: int)
    ensures 1 <= month <= 12 ==> 1 <= r <= 12 && r == (month + 2) % 12 + 1
  {
    if month + 3 > 12 then month + 3 - 12 else month + 3
  }

  /** Exactly the lunar months that `datetime.date(year, approx_month, 1)` accepts. */
  lemma LunarWindowDomain(month: int)
    ensures 1 <= LunarWindowMonth(month) <= 12 <==> -1 <= month <= 22
  {
  }

  /**
   * The shape the searches need: every month value the tables can hand to
   * a search leads to a civil month `datetime.date` accepts. Month values
   * 1..12 always fit.
   */
  predicate Fits(t: Tables) {
    (forall m :: m in t.lunarMonths.Values ==> 1 <= LunarWindowMonth(m) <= 12)
    && (forall m :: m in t.solarMonths.Values ==> 1 <= SolarWindowMonth(m) <= 12)
    && (forall r :: r in t.festivalRules.Values && r.kind == "lunar" ==> 1 <= LunarWindowMonth(r.month) <= 12)
  }

  /**
   * `target_index`: the tithi counted from the new moon, 15 more in the
   * Krishna (waning) half.
   */
  function TargetTithi(paksha: string, tithi: int): (r: int)
    ensures 1 <= tithi <= 15 ==> 1 <= r <= 30 && (r > 15 <==> paksha == Krishna)
  {
    if paksha == Krishna then tithi + 15 else tithi
  }

  /** Distinct (paksha half, tithi) pairs with tithi in 1..15 give distinct targets. */
  lemma TargetTithiInjective(p1: string, t1: int, p2: string, t2: int)
    requires 1 <= t1 <= 15 && 1 <= t2 <= 15
    requires TargetTithi(p1, t1) == TargetTithi(p2, t2)
    ensures t1 == t2 && (p1 == Krishna <==> p2 == Krishna)
  {
  }
}
