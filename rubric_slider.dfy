/** components/RubricSlider.tsx: the level of a score on one criterion,
    the description and label shown for that level, and how the level
    relates to the band written in the exported results. */
module RubricSlider {
  import opened JsNumber
  import opened Types
  import opened CsvHelper

  /** The `level` memo: "low" while value / maxPoints <= 0.33, "mid" while
      it is <= 0.66, "high" otherwise (a NaN ratio fails both tests). */
  function Level(value: int, maxPoints: int): (r: ScoreLevel)
    ensures r == Low <==> RatioAtMost(value, maxPoints, 33)
    ensures r == Mid <==> !RatioAtMost(value, maxPoints, 33) && RatioAtMost(value, maxPoints, 66)
  {
    if RatioAtMost(value, maxPoints, 33) then Low
    else if RatioAtMost(value, maxPoints, 66) then Mid
    else High
  }

  /** `getDescription`: the text of the item's rubric for the level. */
  function Description(item: RubricItem, level: ScoreLevel): string {
    match level
    case Low => item.levelLow
    case Mid => item.levelMid
    case High => item.levelHigh
  }

  /** The label in front of the description. */
  function LevelLabel(level: ScoreLevel): string {
    match level
    case Low => "Niveau Insuffisant"
    case Mid => "Niveau Moyen"
    case High => "Niveau Excellent"
  }

  /** The band of the export that a level stands for. */
  function BandOfLevel(level: ScoreLevel): Band {
    match level
    case Low => Insuffisant
    case Mid => Moyen
    case High => Excellent
  }

  /** With a positive maximum the level cuts at exactly 33/100 and 66/100
      of it, and a tie falls into the lower level. */
  lemma LevelThresholds(value: int, maxPoints: int)
    requires maxPoints > 0
    ensures Level(value, maxPoints) == Low <==> 100 * value <= 33 * maxPoints
    ensures Level(value, maxPoints) == Mid <==> 33 * maxPoints < 100 * value <= 66 * maxPoints
    ensures Level(value, maxPoints) == High <==> 100 * value > 66 * maxPoints
  {
  }

  /** The slider and the export agree: low is "Insuffisant", mid "Moyen"
      and high "Excellent", for every maximum but 0 and, with a maximum of
      0, for every value but 0. */
  lemma LevelAgreesWithBand(value: int, maxPoints: int)
    requires maxPoints != 0 || value != 0
    ensures BandOfLevel(Level(value, maxPoints)) == BandFor(value, maxPoints)
  {
    RatioAtMostIsNotAbove(value, maxPoints, 33);
    RatioAtMostIsNotAbove(value, maxPoints, 66);
  }

  /** At 0 / 0 the ratio is NaN: the slider shows "high" while the export
      writes "Insuffisant". The parser never yields a zero maximum, so a
      parsed item cannot reach this case. */
  lemma ZeroOverZero()
    ensures Level(0, 0) == High && BandFor(0, 0) == Insuffisant
  {
  }

  /** Every item the parser yields has a level that agrees with its band,
      whatever the score. */
  lemma ParsedItemsAgree(csvText: string, k: nat, value: int)
    requires k < |ParseRubric(csvText)|
    ensures var item := ParseRubric(csvText)[k];
      BandOfLevel(Level(value, item.maxPoints)) == BandFor(value, item.maxPoints)
  {
    ParsedIds(csvText);
    LevelAgreesWithBand(value, ParseRubric(csvText)[k].maxPoints);
  }

  /** The label names the level's band. */
  lemma LabelNamesBand(level: ScoreLevel)
    ensures LevelLabel(level) == "Niveau " + BandText(BandOfLevel(level))
  {
  }

  /** The rank of a level, low to high. */
  function Rank(level: ScoreLevel): nat {
    match level
    case Low => 0
    case Mid => 1
    case High => 2
  }

  /** For a fixed positive maximum, raising the value never lowers the
      level. */
  lemma LevelMonotonic(v1: int, v2: int, maxPoints: int)
    requires maxPoints > 0 && v1 <= v2
    ensures Rank(Level(v1, maxPoints)) <= Rank(Level(v2, maxPoints))
  {
  }

  /** On a 10-point criterion, 0 to 3 is low, 4 to 6 mid and 7 to 10
      high, as the rubric's level texts say. */
  lemma TenPointScale(value: int)
    requires 0 <= value <= 10
    ensures Level(value, 10) == Low <==> value <= 3
    ensures Level(value, 10) == Mid <==> 4 <= value <= 6
    ensures Level(value, 10) == High <==> 7 <= value
  {
  }

  /** The description shown is the rubric text of the value's level. */
  lemma DescriptionShown(item: RubricItem, value: int)
    requires item.maxPoints > 0
    ensures 100 * value <= 33 * item.maxPoints ==> Description(item, Level(value, item.maxPoints)) == item.levelLow
    ensures 33 * item.maxPoints < 100 * value <= 66 * item.maxPoints ==>
              Description(item, Level(value, item.maxPoints)) == item.levelMid
    ensures 100 * value > 66 * item.maxPoints ==> Description(item, Level(value, item.maxPoints)) == item.levelHigh
  {
    LevelThresholds(value, item.maxPoints);
  }
}
