/**
 * The records the roster script passes around: a row of the master roster,
 * the processed player written to a team file, and a parsed row of a team
 * file as it is read back.
 */
module Records {

  /** One row of the master roster, restricted to the columns the script reads. */
  datatype SourceRow = SourceRow(
    team: string,
    name: string,
    position: string,
    overallAttribute: string,
    closeShot: string,
    midRangeShot: string,
    threePointShot: string,
    freeThrow: string,
    interiorDefense: string,
    perimeterDefense: string,
    offensiveRebound: string,
    defensiveRebound: string,
    passAccuracy: string,
    passIQ: string,
    passVision: string,
    steal: string,
    block: string,
    layup: string,
    standingDunk: string,
    drivingDunk: string,
    speed: string,
    agility: string,
    strength: string,
    vertical: string,
    stamina: string,
    hustle: string,
    overallDurability: string,
    offensiveConsistency: string,
    defensiveConsistency: string,
    drawFoul: string)

  /** The five hand-curated columns that survive a re-run. */
  datatype Protected = Protected(
    name: string,
    englishName: string,
    position: string,
    playerType: string,
    rotationType: string)

  /** The twenty rating columns, always recomputed from the master roster. */
  datatype Ratings = Ratings(
    rating: string,
    insideRating: string,
    midRating: string,
    threeRating: string,
    freeThrowPercent: string,
    interiorDefense: string,
    perimeterDefense: string,
    orbRating: string,
    drbRating: string,
    astRating: string,
    stlRating: string,
    blkRating: string,
    layupRating: string,
    standDunk: string,
    drivingDunk: string,
    athleticism: string,
    durability: string,
    offConst: string,
    defConst: string,
    drawFoul: string)

  /** A processed player: the 25 output columns, protected ones first. */
  datatype Player = Player(info: Protected, stats: Ratings)

  /** A row of a team file as a CSV reader yields it: column name to cell. */
  type Row = map<string, string>

  /** The header of every team file, in column order. */
  const Columns: seq<string> := [
    "name", "englishName", "position", "playerType", "rotationType",
    "rating", "insideRating", "midRating", "threeRating", "freeThrowPercent",
    "interiorDefense", "perimeterDefense", "orbRating", "drbRating", "astRating",
    "stlRating", "blkRating", "layupRating", "standDunk", "drivingDunk",
    "athleticism", "durability", "offConst", "defConst", "drawFoul"
  ]

  /** The row a CSV writer with header `Columns` emits for `p`. */
  function ToRow(p: Player): Row {
    map[
      "name" := p.info.name,
      "englishName" := p.info.englishName,
      "position" := p.info.position,
      "playerType" := p.info.playerType,
      "rotationType" := p.info.rotationType,
      "rating" := p.stats.rating,
      "insideRating" := p.stats.insideRating,
      "midRating" := p.stats.midRating,
      "threeRating" := p.stats.threeRating,
      "freeThrowPercent" := p.stats.freeThrowPercent,
      "interiorDefense" := p.stats.interiorDefense,
      "perimeterDefense" := p.stats.perimeterDefense,
      "orbRating" := p.stats.orbRating,
      "drbRating" := p.stats.drbRating,
      "astRating" := p.stats.astRating,
      "stlRating" := p.stats.stlRating,
      "blkRating" := p.stats.blkRating,
      "layupRating" := p.stats.layupRating,
      "standDunk" := p.stats.standDunk,
      "drivingDunk" := p.stats.drivingDunk,
      "athleticism" := p.stats.athleticism,
      "durability" := p.stats.durability,
      "offConst" := p.stats.offConst,
      "defConst" := p.stats.defConst,
      "drawFoul" := p.stats.drawFoul
    ]
  }

  /** The rows written to a team file, one per player, in list order. */
  function ToRows(ps: seq<Player>): (rows: seq<Row>)
    ensures |rows| == |ps|
  {
    if ps == [] then [] else ToRows(ps[..|ps| - 1]) + [ToRow(ps[|ps| - 1])]
  }

  /** Row `j` of the file is the row of player `j`. */
  lemma {:induction false} ToRowsAt(ps: seq<Player>, j: nat)
    requires j < |ps|
    ensures ToRows(ps)[j] == ToRow(ps[j])
  {
    if j < |ps| - 1 {
      ToRowsAt(ps[..|ps| - 1], j);
    }
  }

  /** The header has 25 columns and names none twice. */
  lemma ColumnsDistinct()
    ensures |Columns| == 25
    ensures forall i, j :: 0 <= i < j < |Columns| ==> Columns[i] != Columns[j]
  {
  }

  /** Every written row has exactly the header's columns. */
  lemma RowHasColumns(p: Player)
    ensures ToRow(p).Keys == set c | c in Columns
  {
  }
}
