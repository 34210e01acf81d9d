/**
 * The fixed table from a team's full name in the master roster to the short
 * code that names its output file. Matching is exact and case-sensitive.
 */
module Teams {

  const TeamMapping: map<string, string> := map[
    "Atlanta Hawks" := "Hawks",
    "Boston Celtics" := "Celtics",
    "Brooklyn Nets" := "Nets",
    "Charlotte Hornets" := "Hornets",
    "Chicago Bulls" := "Bulls",
    "Cleveland Cavaliers" := "Cavaliers",
    "Dallas Mavericks" := "Mavericks",
    "Denver Nuggets" := "Nuggets",
    "Detroit Pistons" := "Pistons",
    "Golden State Warriors" := "Warriors",
    "Houston Rockets" := "Rockets",
    "Indiana Pacers" := "Pacers",
    "Los Angeles Clippers" := "Clippers",
    "Los Angeles Lakers" := "Lakers",
    "Memphis Grizzlies" := "Grizzlies",
    "Miami Heat" := "Heat",
    "Milwaukee Bucks" := "Bucks",
    "Minnesota Timberwolves" := "Timberwolves",
    "New Orleans Pelicans" := "Pelicans",
    "New York Knicks" := "Knicks",
    "Oklahoma City Thunder" := "Thunder",
    "Orlando Magic" := "Magic",
    "Philadelphia 76ers" := "76ers",
    "Phoenix Suns" := "Suns",
    "Portland Trail Blazers" := "Trail Blazers",
    "Sacramento Kings" := "Kings",
    "San Antonio Spurs" := "Spurs",
    "Toronto Raptors" := "Raptors",
    "Utah Jazz" := "Jazz",
    "Washington Wizards" := "Wizards"
  ]

  /** The output file of a mapped team, relative to the output directory. */
  function FileName(team: string): string
    requires team in TeamMapping
  {
    TeamMapping[team] + ".csv"
  }

  /**
   * `TEAM_MAPPING` read backwards, from short code to full name. The script
   * has no such table: it is a proof device whose only use is
   * `CodeDeterminesTeam`, which shows through it that no two teams share a
   * code.
   */
  const FullNames: map<string, string> := map[
    "Hawks" := "Atlanta Hawks",
    "Celtics" := "Boston Celtics",
    "Nets" := "Brooklyn Nets",
    "Hornets" := "Charlotte Hornets",
    "Bulls" := "Chicago Bulls",
    "Cavaliers" := "Cleveland Cavaliers",
    "Mavericks" := "Dallas Mavericks",
    "Nuggets" := "Denver Nuggets",
    "Pistons" := "Detroit Pistons",
    "Warriors" := "Golden State Warriors",
    "Rockets" := "Houston Rockets",
    "Pacers" := "Indiana Pacers",
    "Clippers" := "Los Angeles Clippers",
    "Lakers" := "Los Angeles Lakers",
    "Grizzlies" := "Memphis Grizzlies",
    "Heat" := "Miami Heat",
    "Bucks" := "Milwaukee Bucks",
    "Timberwolves" := "Minnesota Timberwolves",
    "Pelicans" := "New Orleans Pelicans",
    "Knicks" := "New York Knicks",
    "Thunder" := "Oklahoma City Thunder",
    "Magic" := "Orlando Magic",
    "76ers" := "Philadelphia 76ers",
    "Suns" := "Phoenix Suns",
    "Trail Blazers" := "Portland Trail Blazers",
    "Kings" := "Sacramento Kings",
    "Spurs" := "San Antonio Spurs",
    "Raptors" := "Toronto Raptors",
    "Jazz" := "Utah Jazz",
    "Wizards" := "Washington Wizards"
  ]

  /** Every mapped team's code leads back to that team. */
  lemma CodeDeterminesTeam(team: string)
    requires team in TeamMapping
    ensures TeamMapping[team] in FullNames && FullNames[TeamMapping[team]] == team
  {
  }

  lemma {:induction false} ConcatCancelRight(a: string, b: string, s: string)
    requires a + s == b + s
    ensures a == b
  {
    assert a == (a + s)[..|a|];
  }

  /**
   * Distinct teams write distinct files, so no team's output overwrites
   * another's within one run.
   */
  lemma {:induction false} FileNamesDistinct(a: string, b: string)
    requires a in TeamMapping && b in TeamMapping
    requires a != b
    ensures FileName(a) != FileName(b)
  {
    CodeDeterminesTeam(a);
    CodeDeterminesTeam(b);
    if FileName(a) == FileName(b) {
      ConcatCancelRight(TeamMapping[a], TeamMapping[b], ".csv");
    }
  }

  /** The output file of every mapped team. */
  const OutputFiles: map<string, string> := map team | team in TeamMapping :: FileName(team)

  /** Exactly the mapped teams have an output file, and no two teams share one. */
  lemma OutputFilesDistinct()
    ensures OutputFiles.Keys == TeamMapping.Keys
    ensures forall team :: team in OutputFiles ==> OutputFiles[team] == FileName(team)
    ensures forall a, b :: a in OutputFiles && b in OutputFiles && a != b ==> OutputFiles[a] != OutputFiles[b]
  {
    forall a, b | a in OutputFiles && b in OutputFiles && a != b
      ensures OutputFiles[a] != OutputFiles[b]
    {
      FileNamesDistinct(a, b);
    }
  }

  /** Matching is exact and case-sensitive; the file name is the code plus ".csv". */
  lemma MappingExamples()
    ensures "Golden State Warriors" in TeamMapping
    ensures FileName("Golden State Warriors") == "Warriors.csv"
    ensures FileName("Portland Trail Blazers") == "Trail Blazers.csv"
    ensures "Unknown Team XYZ" !in TeamMapping
    ensures "golden state warriors" !in TeamMapping
  {
  }
}
