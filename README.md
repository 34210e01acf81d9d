# process_roster: a verified model

`nba-sim-web/process_roster.py` turns a league roster into one CSV file per
team. It reads the master roster: one row per player, with the player's team
and about thirty attribute columns. It groups the rows by team, in the order
the teams first appear. For each team `TEAM_MAPPING` knows, it:

- reads the team's existing file, if there is one, and keeps five
  "protected" columns per player (`name`, `englishName`, `position`,
  `playerType`, `rotationType`);
- turns every roster row into a 25-column record, with `astRating` and
  `athleticism` as floored means of their inputs;
- copies in the protected columns of any player found in the existing file;
- sorts the records stably by descending integer rating;
- overwrites the team's file with them.

A run therefore refreshes every rating from the roster and keeps the
hand-edited roles.

The Dafny project models that pipeline, one module per stage:

| module | file | models |
|---|---|---|
| `Numeric` | `numeric.dfy` | Python's `int()` on strings (`IsInt`, `ParseInt`) and `str()` on integers (`IntToString`) |
| `Records` | `records.dfy` | the roster row, the processed record, the CSV header, and the rows `csv.DictWriter` emits |
| `Teams` | `teams.dfy` | `TEAM_MAPPING` and the output file name of each team |
| `Transform` | `player.dfy` | `process_player` |
| `Existing` | `existing.dfy` | `read_existing_team_data`, as a function `IndexOf` and a loop `ReadExistingTeamData` |
| `Grouping` | `grouping.dfy` | the loading loop that builds `players_by_team` |
| `Ordering` | `ordering.dfy` | `list.sort(key=..., reverse=True)`: the function `SortDescending` and an in-place insertion sort on an array |
| `TeamProcessing` | `team.dfy` | the per-team body: process, reconcile, sort |
| `Roster` | `roster.dfy` | `process_roster`: the team loop over an output directory |

The output directory is a map from file name to the rows of that file. A
name missing from the map is a file that does not exist. A CSV row is a map
from column name to cell, as `csv.DictReader` yields it.

The team loop is stated for any table from team to output file name. The
script's table is `Teams.OutputFiles`, which maps each team of `TEAM_MAPPING`
to its code plus `.csv`.

In `read_existing_team_data`, `row.get('englishName', row.get('name', ''))`
falls back to `name` only when the `englishName` column is absent. A row whose
`englishName` is present but blank is skipped, even if its `name` is filled
in (`Existing.BlankEnglishNameIsSkipped`).

Re-running the script on an unchanged roster writes the same files again when
two conditions hold: names are distinct within each team, and the team files
it first read have their key in the `englishName` column, which every file
the script writes does (`Roster.RosterIdempotent`). From the second run on
the output is stable whatever the directory held first
(`Roster.StableFromSecondRun`). The distinct-names condition is needed:
`TeamProcessing.DuplicateNamesBreakIdempotence` exhibits a team whose file
changes on the second run.

## Model

| member | source | states |
|---|---|---|
| Numeric.ParseIntOfIntToString | nba-sim-web/process_roster.py:80-86 | `str()` of any integer is a decimal string that `int()` accepts and reads back as the same integer |
| Numeric.IntToStringOfParseInt | nba-sim-web/process_roster.py:80-86 | every decimal string `str()` can print is reproduced by `str(int(s))` |
| Numeric.StripExamples | nba-sim-web/process_roster.py:49-61 | `int()` strips a surrounding space or newline, so " 70\n" reads as 70, but a leading U+001C makes it fail |
| Records.ColumnsDistinct | nba-sim-web/process_roster.py:174-180 | the header has 25 columns and names none twice |
| Records.RowHasColumns | nba-sim-web/process_roster.py:174-185 | every written row has exactly the header's columns, so `DictWriter` accepts it |
| Records.ToRowsAt | nba-sim-web/process_roster.py:182-185 | row `j` of a written file is the row of record `j` |
| Teams.CodeDeterminesTeam | nba-sim-web/process_roster.py:6-37 | every team's code leads back to that team: no two teams share a code |
| Teams.FileNamesDistinct | nba-sim-web/process_roster.py:143-145 | two different mapped teams get different output file names |
| Teams.OutputFilesDistinct | nba-sim-web/process_roster.py:143-145 | exactly the mapped teams have an output file, it is the team's code plus `.csv`, and no two teams share one |
| Teams.MappingExamples | nba-sim-web/process_roster.py:6-37 | lookup is exact and case-sensitive, so "Unknown Team XYZ" and "golden state warriors" have no mapping; "Golden State Warriors" writes `Warriors.csv` and "Portland Trail Blazers" writes `Trail Blazers.csv` |
| Transform.ProcessPlayerSpec | nba-sim-web/process_roster.py:39-93 | both names are the roster `name` and the role columns are empty; `astRating` and `athleticism` are decimal strings whose values are the floors of the means of their 3 and 6 inputs; the other 18 rating columns are copied unchanged |
| Transform.AstRatingRoundsDown | nba-sim-web/process_roster.py:49-53 | passing 70, 70 and 71 gives `astRating` "70": the mean is floored, not rounded |
| Transform.AthleticismRoundsDown | nba-sim-web/process_roster.py:55-62 | athletic inputs summing to 485 give `athleticism` "80" |
| Existing.IndexOf | nba-sim-web/process_roster.py:109-119 | the index never has the blank key |
| Existing.ReadExistingTeamData | nba-sim-web/process_roster.py:105-120 | the loop builds exactly `IndexOf` of the file's rows |
| Existing.IndexOfLookup | nba-sim-web/process_roster.py:109-119 | a key is indexed if and only if it is non-blank and some row has it; its entry is the protected columns of the last such row |
| Existing.BlankEnglishNameIsSkipped | nba-sim-web/process_roster.py:111-112 | a row with a present but blank `englishName` leaves the index unchanged, even when `name` is filled in |
| Existing.MissingEnglishNameFallsBackToName | nba-sim-web/process_roster.py:111-119 | a row without an `englishName` column is indexed under its `name`, and its stored `englishName` is "" |
| Existing.HeaderWithEnglishNameIsConsistent | nba-sim-web/process_roster.py:111-115 | when every row has an `englishName` column, every key is the stored `englishName` of its entry |
| Existing.ReadBackWrittenRow | nba-sim-web/process_roster.py:111-119 | reading back a written row gives its record's `englishName` as key and its five protected columns |
| Existing.WrittenFileIsConsistent | nba-sim-web/process_roster.py:105-120 | the index of any file the script wrote has each key equal to its entry's `englishName` |
| Grouping.GroupByTeam | nba-sim-web/process_roster.py:131-139 | the loop yields the teams in first-seen order, and for each team its rows in roster order |
| Grouping.RowsOf | nba-sim-web/process_roster.py:139 | a team's group holds only roster rows of that team |
| Grouping.TeamsCover | nba-sim-web/process_roster.py:136-138 | a team is a key if and only if some row has it; any other team has no rows |
| Grouping.TeamsDistinct | nba-sim-web/process_roster.py:137-138 | no team is listed twice |
| Grouping.TeamsInFirstSeenOrder | nba-sim-web/process_roster.py:137-138 | if team i precedes team j, a row of team i occurs before every row of team j |
| Grouping.RowPlacement | nba-sim-web/process_roster.py:139 | each row sits in its own team's group at the position given by the same-team rows before it, so groups keep roster order |
| Grouping.GroupSizesSum | nba-sim-web/process_roster.py:131-139 | the groups together hold exactly as many rows as the roster |
| Ordering.SortDescending | nba-sim-web/process_roster.py:171 | sorting keeps the length and is a permutation |
| Ordering.SortIsDescending | nba-sim-web/process_roster.py:171 | the sorted list is non-increasing by key |
| Ordering.SortIsStable | nba-sim-web/process_roster.py:171 | for every key value, the elements with that key keep their relative order |
| Ordering.SortInPlace | nba-sim-web/process_roster.py:171 | the in-place insertion sort leaves the array as `SortDescending` of its old contents |
| Ordering.TenSortsAboveNine | nba-sim-web/process_roster.py:171 | ratings compare as integers: "10" sorts above "9" |
| TeamProcessing.Merged | nba-sim-web/process_roster.py:153-168 | each record keeps its fresh ratings; it takes exactly the stored protected columns when its key is indexed, and keeps its own otherwise |
| TeamProcessing.ProcessTeam | nba-sim-web/process_roster.py:152-171 | the loop and the in-place sort produce `TeamOutput`: the reconciled records, stably sorted |
| TeamProcessing.ProcessedRecords | nba-sim-web/process_roster.py:154-158 | each processed record is its row processed; its `englishName` is the row's lookup key, and its rating is the row's `overallAttribute` |
| TeamProcessing.TeamOutputOrdered | nba-sim-web/process_roster.py:153-171 | a team's output has one record per row, is a permutation of the reconciled records, is non-increasing in rating and is stable |
| TeamProcessing.RereadIndex | nba-sim-web/process_roster.py:148-185 | rereading the written file of records with distinct keys indexes each non-blank key with exactly the protected columns written for it |
| TeamProcessing.MergedIdempotent | nba-sim-web/process_roster.py:153-171 | reconciling against the index of one's own written output reproduces the reconciled records |
| TeamProcessing.TeamIdempotent | nba-sim-web/process_roster.py:147-185 | with distinct names and a consistent prior index, rerunning a team on its own output writes the same records |
| TeamProcessing.SharedKeyRewritten | nba-sim-web/process_roster.py:158-166 | two records sharing a key and rating but not protected columns both take the second one's columns on reconciliation with their own output |
| TeamProcessing.DuplicateNamesBreakIdempotence | nba-sim-web/process_roster.py:158-166 | two rows with the same name and rating but different positions produce a different file on the second run |
| TeamProcessing.DuplicateNamesShareProtectedFields | nba-sim-web/process_roster.py:158-166 | rows sharing an indexed name all take the one entry stored under it |
| TeamProcessing.EditedPlayerTypeSurvives | nba-sim-web/process_roster.py:158-166 | an earlier row with `playerType` "Starter" for the same player keeps "Starter", while the ratings come from the roster |
| Roster.ProcessRoster | nba-sim-web/process_roster.py:130-189 | the script's run yields the directory `Roster(rows, files)` |
| Roster.ProcessTeams | nba-sim-web/process_roster.py:142-189 | the team loop over the dictionary's key order yields `RunTeams` of that order |
| Roster.ProcessTeamFile | nba-sim-web/process_roster.py:143-189 | one turn skips an unmapped team, and otherwise overwrites the team's file with its players processed against that file |
| Roster.RunTeamsFiles | nba-sim-web/process_roster.py:142-187 | the loop over distinct teams adds exactly the mapped teams' files, each holding its team processed against that file's earlier contents, and changes no other file |
| Roster.RosterFiles | nba-sim-web/process_roster.py:130-189 | after a run the directory holds the old files plus one per mapped team of the roster; that file is the team's rows processed against its earlier contents (none when it did not exist); every other file is unchanged |
| Roster.RosterIdempotent | nba-sim-web/process_roster.py:130-189 | with distinct names per team and consistent first files, a second run on the produced directory changes nothing |
| Roster.ProducedFilesConsistent | nba-sim-web/process_roster.py:173-185 | every team file in a directory the script produced indexes consistently |
| Roster.StableFromSecondRun | nba-sim-web/process_roster.py:130-189 | with distinct names per team, whatever the directory held first, the third run writes what the second wrote |

## Left out

- CSV text: quoting, the header line, line endings and UTF-8 decoding are not modelled. A file is the sequence of row maps a `DictReader` yields and a `DictWriter` is given, so reading a file gives back exactly the rows written to it. The script keeps that true: the roster (line 133) and the team file (line 107) are both read in universal-newline mode, which turns every `\r` into `\n`. The cells `str()` adds at lines 80 and 86 are digits, possibly after a '-'. So no cell the script writes at line 185 holds a `\r`, and a written file reads back as written.
- Short or long CSV lines, for which `DictReader` fills in `None` or an extra key: roster rows are complete records, and existing-file cells are strings.
- A roster without one of the columns `process_player` reads, which raises `KeyError`: `SourceRow` always has every column.
- `int()` failures are preconditions (`Transform.Computable`, `Roster.TeamReady`, `Roster.RosterReady`), not an error path. The script aborts at the first bad cell after writing the files of earlier teams, and the model does not capture that partial output.
- `math.floor` of a float quotient is modelled as exact integer floor division. The two agree while the sums stay below 2^53.
- `int()` on non-ASCII digits and non-ASCII whitespace: the model accepts ASCII only.
- `int()` and `str()` refuse numbers of more than 4300 digits (Python 3.11 and later); `IsInt` and `IntToString` have no length limit.
- `print` messages, `main()` and its hard-coded paths, `os.path.exists` (a missing map key) and `os.path.join` (the directory map is keyed by file name relative to the output directory).
- Filesystem errors and concurrent writers.
- Python's Timsort: the model uses insertion sort. Both are stable sorts by the same key, so they give the same list.
- Roster.RosterIdempotent: identical reruns are proved only under its conditions: names distinct within each team, and first files that index consistently. `TeamProcessing.DuplicateNamesBreakIdempotence` shows the first condition is needed. A file of an older layout without an `englishName` column can also change on the first rerun.

## Definitions

These functions define the model and have no `ensures` of their own, or only a length bound. The lemmas named after each one state their contracts.

- Numeric.IsInt, Numeric.ParseInt (process_roster.py:49-61, 171): `int()` on a string. Contracts: `Numeric.ParseIntOfIntToString`, `Numeric.IntToStringOfParseInt`, `Numeric.StripExamples`.
- Numeric.IntToString (process_roster.py:80, 86): `str()` of an integer. Contracts: `Numeric.ParseIntOfIntToString`, `Numeric.IntToStringOfParseInt`.
- Records.ToRow (process_roster.py:174-185): the dictionary `DictWriter` writes for one record. Contracts: `Records.RowHasColumns`, `Existing.ReadBackWrittenRow`.
- Records.ToRows (process_roster.py:182-185): the rows `writerows` writes. Contracts: `Records.ToRowsAt`, `Existing.ReadBackWrittenRows`, `Existing.WrittenFileIsConsistent`.
- Transform.ProcessPlayer (process_roster.py:39-93): `process_player`. Contracts: `Transform.ProcessPlayerSpec`, `Transform.AstRatingRoundsDown`, `Transform.AthleticismRoundsDown`.
- Existing.KeyOf (process_roster.py:111): the index key of a row. Contracts: `Existing.IndexOfLookup`, `Existing.BlankEnglishNameIsSkipped`, `Existing.MissingEnglishNameFallsBackToName`, `Existing.ReadBackWrittenRow`.
- Existing.ProtectedOf (process_roster.py:113-119): the five stored columns of a row. Contracts: `Existing.IndexOfLookup`, `Existing.ReadBackWrittenRow`, `TeamProcessing.EditedPlayerTypeSurvives`.
- Grouping.TeamsInOrder (process_roster.py:131-139): the key order of `players_by_team`. Contracts: `Grouping.GroupByTeam`, `Grouping.TeamsCover`, `Grouping.TeamsDistinct`, `Grouping.TeamsInFirstSeenOrder`.
- Grouping.Grouped (process_roster.py:131-139): `players_by_team`, each team's group being `Grouping.RowsOf`. Contracts: `Grouping.GroupByTeam`, `Grouping.RowsOf`, `Grouping.TeamsCover`, `Grouping.RowPlacement`, `Grouping.GroupSizesSum`.
- TeamProcessing.Reconcile (process_roster.py:159-166): one record's reconciliation. Contract: `TeamProcessing.Merged`.
- TeamProcessing.TeamOutput (process_roster.py:153-171): a team's written records. Contracts: `TeamProcessing.ProcessTeam`, `TeamProcessing.TeamOutputOrdered`, `TeamProcessing.TeamIdempotent`, `TeamProcessing.DuplicateNamesBreakIdempotence`, `TeamProcessing.EditedPlayerTypeSurvives`.
- Ordering.RatingKey (process_roster.py:171): the sort key `int(x['rating'])`. Contracts: `Ordering.TenSortsAboveNine`, `TeamProcessing.TeamOutputOrdered`.
- TeamProcessing.Processed (process_roster.py:154-155): `process_player` applied to each row of a team. Contract: `TeamProcessing.ProcessedRecords`.
- TeamProcessing.Names (process_roster.py:158): the match key `player_row['name']` of each row. Contract: `TeamProcessing.ProcessedRecords`.
- Roster.ExistingRows (process_roster.py:106): the rows of a team file, none when it does not exist. Contract: `Roster.RosterFiles`.
- Existing.Cell (process_roster.py:111, 114-118): `row.get(column, '')`. Contracts: `Existing.MissingEnglishNameFallsBackToName`, `Existing.ReadBackWrittenRow`, `Existing.IndexOfLookup`.
- Teams.FileName (process_roster.py:145): the output name `f"{team_short_name}.csv"`. Contracts: `Teams.FileNamesDistinct`, `Teams.OutputFilesDistinct`, `Teams.MappingExamples`.
- Transform.PassingSum (process_roster.py:49-52), Transform.AthleticSum (process_roster.py:55-61): the sums behind `astRating` and `athleticism`. Contract: `Transform.ProcessPlayerSpec`.
- Roster.WriteTeam (process_roster.py:143-187): one turn of the team loop. Contracts: `Roster.ProcessTeamFile`, `Roster.RunTeamsFiles`.
- Roster.RunTeams (process_roster.py:142-189): the team loop over a key order. Contracts: `Roster.ProcessTeams`, `Roster.RunTeamsFiles`.
- Roster.Roster (process_roster.py:130-189): a whole run. Contracts: `Roster.ProcessRoster`, `Roster.RosterFiles`, `Roster.RosterIdempotent`, `Roster.ProducedFilesConsistent`, `Roster.StableFromSecondRun`.
