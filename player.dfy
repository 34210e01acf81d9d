/**
 * `process_player`: projects a master-roster row onto the 25 output columns
 * and derives the two averaged ratings.
 */
module Transform {
  import opened Numeric
  import opened Records

  /** The row's nine columns that `process_player` converts with `int()`. */
  predicate Computable(row: SourceRow) {
    && IsInt(row.passAccuracy) && IsInt(row.passIQ) && IsInt(row.passVision)
    && IsInt(row.speed) && IsInt(row.agility) && IsInt(row.strength)
    && IsInt(row.vertical) && IsInt(row.stamina) && IsInt(row.hustle)
  }

  function PassingSum(row: SourceRow): int {
    ParseInt(row.passAccuracy) + ParseInt(row.passIQ) + ParseInt(row.passVision)
  }

  function AthleticSum(row: SourceRow): int {
    ParseInt(row.speed) + ParseInt(row.agility) + ParseInt(row.strength)
    + ParseInt(row.vertical) + ParseInt(row.stamina) + ParseInt(row.hustle)
  }

  /** The processed record of one roster row. */
  function ProcessPlayer(row: SourceRow): Player
    requires Computable(row)
  {
    // Dafny's division rounds toward negative infinity for a positive
    // divisor, as math.floor of the true quotient does.
    var astRating := PassingSum(row) / 3;
    var athleticism := AthleticSum(row) / 6;
    Player(
      Protected(row.name, row.name, row.position, "", ""),
      Ratings(
        row.overallAttribute, row.closeShot, row.midRangeShot, row.threePointShot,
        row.freeThrow, row.interiorDefense, row.perimeterDefense,
        row.offensiveRebound, row.defensiveRebound, IntToString(astRating),
        row.steal, row.block, row.layup, row.standingDunk, row.drivingDunk,
        IntToString(athleticism), row.overallDurability, row.offensiveConsistency,
        row.defensiveConsistency, row.drawFoul))
  }

  /**
   * Both protected names are the roster's `name` and the two role columns
   * start empty; `astRating` and `athleticism` are decimal strings whose
   * values are the floors of the means of their three and six inputs, so
   * that reading them back with `int()` gives the mean; every other rating
   * column is its roster column unchanged.
   */
  lemma ProcessPlayerSpec(row: SourceRow)
    requires Computable(row)
    ensures var p := ProcessPlayer(row);
      && p.info == Protected(row.name, row.name, row.position, "", "")
      && IsDecimal(p.stats.astRating)
      && (var a := ParseInt(p.stats.astRating); 3 * a <= PassingSum(row) < 3 * a + 3)
      && IsDecimal(p.stats.athleticism)
      && (var a := ParseInt(p.stats.athleticism); 6 * a <= AthleticSum(row) < 6 * a + 6)
      && p.stats.rating == row.overallAttribute
      && p.stats.insideRating == row.closeShot
      && p.stats.midRating == row.midRangeShot
      && p.stats.threeRating == row.threePointShot
      && p.stats.freeThrowPercent == row.freeThrow
      && p.stats.interiorDefense == row.interiorDefense
      && p.stats.perimeterDefense == row.perimeterDefense
      && p.stats.orbRating == row.offensiveRebound
      && p.stats.drbRating == row.defensiveRebound
      && p.stats.stlRating == row.steal
      && p.stats.blkRating == row.block
      && p.stats.layupRating == row.layup
      && p.stats.standDunk == row.standingDunk
      && p.stats.drivingDunk == row.drivingDunk
      && p.stats.durability == row.overallDurability
      && p.stats.offConst == row.offensiveConsistency
      && p.stats.defConst == row.defensiveConsistency
      && p.stats.drawFoul == row.drawFoul
  {
    ParseIntOfIntToString(PassingSum(row) / 3);
    ParseIntOfIntToString(AthleticSum(row) / 6);
  }

  /** The mean is floored, never rounded: passing 70, 70 and 71 rates "70". */
  lemma AstRatingRoundsDown(row: SourceRow)
    requires Computable(row)
    requires ParseInt(row.passAccuracy) == 70 && ParseInt(row.passIQ) == 70
    requires ParseInt(row.passVision) == 71
    ensures ProcessPlayer(row).stats.astRating == "70"
  {
    var a := ProcessPlayer(row).stats.astRating;
    ProcessPlayerSpec(row);
    assert ParseInt(a) == 70 && IsDecimal(a);
    IntToStringOfParseInt(a);
    TwoDigitDecimal(7);
  }

  /** Athletic inputs summing to 485 give athleticism "80" (485 / 6 is 80.83). */
  lemma AthleticismRoundsDown(row: SourceRow)
    requires Computable(row)
    requires AthleticSum(row) == 485
    ensures ProcessPlayer(row).stats.athleticism == "80"
  {
    var a := ProcessPlayer(row).stats.athleticism;
    ProcessPlayerSpec(row);
    assert ParseInt(a) == 80 && IsDecimal(a);
    IntToStringOfParseInt(a);
    TwoDigitDecimal(8);
  }
}
