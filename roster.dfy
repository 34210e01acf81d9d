/**
 * `process_roster` as a whole: the roster's rows are grouped by team, and
 * for each team the `TEAM_MAPPING` knows, in first-seen order, the team's
 * file in the output directory is read, reconciled against and rewritten.
 * The output directory is a map from file name to the rows of that file; a
 * name it lacks is a file that does not exist.
 *
 * The team loop is stated for any table `fileOf` from team to output file;
 * the script's table is `OutputFiles`, which names each file after its team
 * code and gives no two teams the same file.
 */
module Roster {
  import opened Numeric
  import opened Records
  import opened Teams
  import opened Transform
  import opened Existing
  import opened Grouping
  import opened TeamProcessing

  type Directory = map<string, seq<Row>>

  /** The rows `read_existing_team_data` gets from a file: none when it does not exist. */
  function ExistingRows(files: Directory, fileName: string): seq<Row> {
    if fileName in files then files[fileName] else []
  }

  /** Every `int()` the processing of these rows performs succeeds. */
  predicate TeamReady(players: seq<SourceRow>) {
    forall i :: 0 <= i < |players| ==> Computable(players[i]) && IsInt(players[i].overallAttribute)
  }

  /** The script runs to completion: every row of a mapped team converts. */
  predicate RosterReady(rows: seq<SourceRow>) {
    forall i :: 0 <= i < |rows| && rows[i].team in TeamMapping ==>
      Computable(rows[i]) && IsInt(rows[i].overallAttribute)
  }

  predicate GroupsReady(fileOf: map<string, string>, order: seq<string>, groups: map<string, seq<SourceRow>>) {
    forall t :: t in order ==> t in groups && (t in fileOf ==> TeamReady(groups[t]))
  }

  predicate Injective(fileOf: map<string, string>) {
    forall a, b :: a in fileOf && b in fileOf && a != b ==> fileOf[a] != fileOf[b]
  }

  /**
   * One turn of the team loop: a mapped team's file is replaced by its
   * processed players, read against what the file held before; an unmapped
   * team changes nothing.
   */
  function WriteTeam(fileOf: map<string, string>, files: Directory, team: string, players: seq<SourceRow>): Directory
    requires team in fileOf ==> TeamReady(players)
  {
    if team in fileOf then
      var fileName := fileOf[team];
      files[fileName := ToRows(TeamOutput(players, IndexOf(ExistingRows(files, fileName))))]
    else files
  }

  /** The directory after the team loop has run over `order`. */
  function RunTeams(fileOf: map<string, string>, order: seq<string>, groups: map<string, seq<SourceRow>>,
                    files: Directory): Directory
    requires GroupsReady(fileOf, order, groups)
  {
    if order == [] then files
    else
      var team := order[|order| - 1];
      WriteTeam(fileOf, RunTeams(fileOf, order[..|order| - 1], groups, files), team, groups[team])
  }

  lemma {:induction false} GroupedReady(rows: seq<SourceRow>)
    requires RosterReady(rows)
    ensures GroupsReady(OutputFiles, TeamsInOrder(rows), Grouped(rows))
  {
    OutputFilesDistinct();
    forall t | t in TeamsInOrder(rows) && t in OutputFiles
      ensures TeamReady(Grouped(rows)[t])
    {
      var group := RowsOf(rows, t);
      forall k | 0 <= k < |group|
        ensures Computable(group[k]) && IsInt(group[k].overallAttribute)
      {
        var i :| 0 <= i < |rows| && rows[i] == group[k];
      }
    }
  }

  /** The output directory after one run of the script on `rows`. */
  function Roster(rows: seq<SourceRow>, files: Directory): Directory
    requires RosterReady(rows)
  {
    GroupedReady(rows);
    RunTeams(OutputFiles, TeamsInOrder(rows), Grouped(rows), files)
  }

  method ProcessRoster(rows: seq<SourceRow>, files: Directory) returns (out: Directory)
    requires RosterReady(rows)
    ensures out == Roster(rows, files)
  {
    var order, playersByTeam := GroupByTeam(rows);
    GroupedReady(rows);
    out := ProcessTeams(OutputFiles, order, playersByTeam, files);
  }

  /** The team loop, over the teams in the dictionary's key order. */
  method ProcessTeams(fileOf: map<string, string>, order: seq<string>, playersByTeam: map<string, seq<SourceRow>>, files: Directory)
    returns (out: Directory)
    requires GroupsReady(fileOf, order, playersByTeam)
    ensures out == RunTeams(fileOf, order, playersByTeam, files)
  {
    out := files;
    for k := 0 to |order|
      invariant out == RunTeams(fileOf, order[..k], playersByTeam, files)
    {
      RunTeamsStep(fileOf, order, k, playersByTeam, files);
      out := ProcessTeamFile(fileOf, out, order[k], playersByTeam[order[k]]);
    }
    assert order[..|order|] == order;
  }

  /**
   * One turn of the team loop: a team the table lacks is skipped; otherwise
   * its file is read, its players processed against it, and the file
   * overwritten.
   */
  method ProcessTeamFile(fileOf: map<string, string>, out: Directory, teamFullName: string, players: seq<SourceRow>) returns (next: Directory)
    requires teamFullName in fileOf ==> TeamReady(players)
    ensures next == WriteTeam(fileOf, out, teamFullName, players)
  {
    next := out;
    if teamFullName in fileOf {
      var outputFile := fileOf[teamFullName];
      var existingPlayerInfo := ReadExistingTeamData(ExistingRows(out, outputFile));
      var processedPlayers := ProcessTeam(players, existingPlayerInfo);
      next := out[outputFile := ToRows(processedPlayers)];
    }
  }

  /** The loop over the first `k + 1` teams is the loop over the first `k`, then team `k`. */
  lemma RunTeamsStep(fileOf: map<string, string>, order: seq<string>, k: nat,
                     groups: map<string, seq<SourceRow>>, files: Directory)
    requires k < |order| && GroupsReady(fileOf, order, groups)
    ensures GroupsReady(fileOf, order[..k], groups) && GroupsReady(fileOf, order[..k + 1], groups)
    ensures order[k] in groups && (order[k] in fileOf ==> TeamReady(groups[order[k]]))
    ensures RunTeams(fileOf, order[..k + 1], groups, files)
      == WriteTeam(fileOf, RunTeams(fileOf, order[..k], groups, files), order[k], groups[order[k]])
  {
    assert order[..k + 1][..k] == order[..k];
  }

  /** The files the team loop over `order` writes. */
  function Written(fileOf: map<string, string>, order: seq<string>): set<string> {
    set t | t in order && t in fileOf :: fileOf[t]
  }

  /**
   * `out` is what the team loop over `order` leaves: the files of `files`
   * plus one per mapped team, holding that team processed against the
   * file's contents in `files`, with every other file as it was.
   */
  predicate Describes(fileOf: map<string, string>, out: Directory, order: seq<string>,
                      groups: map<string, seq<SourceRow>>, files: Directory)
    requires GroupsReady(fileOf, order, groups)
  {
    && out.Keys == files.Keys + Written(fileOf, order)
    && TeamFilesWritten(fileOf, out, order, groups, files)
    && KeptFiles(fileOf, out, order, files)
  }

  /** Every file the loop over `order` does not write is as it was in `files`. */
  predicate KeptFiles(fileOf: map<string, string>, out: Directory, order: seq<string>, files: Directory) {
    forall f :: f in files && f !in Written(fileOf, order) ==> f in out && out[f] == files[f]
  }

  predicate TeamFilesWritten(fileOf: map<string, string>, out: Directory, order: seq<string>,
                             groups: map<string, seq<SourceRow>>, files: Directory)
    requires GroupsReady(fileOf, order, groups)
  {
    forall t :: t in order && t in fileOf ==>
      fileOf[t] in out && out[fileOf[t]] == ToRows(TeamOutput(groups[t], IndexOf(ExistingRows(files, fileOf[t]))))
  }

  lemma WrittenAppend(fileOf: map<string, string>, prefix: seq<string>, last: string)
    ensures Written(fileOf, prefix + [last])
      == Written(fileOf, prefix) + (if last in fileOf then {fileOf[last]} else {})
  {
    var order := prefix + [last];
    forall f | f in Written(fileOf, order)
      ensures f in Written(fileOf, prefix) + (if last in fileOf then {fileOf[last]} else {})
    {
      var t :| t in order && t in fileOf && fileOf[t] == f;
      if t != last {
        assert t in prefix;
      }
    }
  }

  /** A team not among the earlier ones finds its file untouched by them. */
  lemma NotYetWritten(fileOf: map<string, string>, prefix: seq<string>, last: string)
    requires Injective(fileOf)
    requires last in fileOf && last !in prefix
    ensures fileOf[last] !in Written(fileOf, prefix)
  {
  }

  /** Writing a new team's file keeps the earlier teams' files, and holds the new team's output. */
  lemma MappedStepFiles(fileOf: map<string, string>, mid: Directory, prefix: seq<string>, last: string,
                        groups: map<string, seq<SourceRow>>, files: Directory)
    requires Injective(fileOf)
    requires GroupsReady(fileOf, prefix + [last], groups) && GroupsReady(fileOf, prefix, groups)
    requires last in fileOf && last !in prefix
    requires mid.Keys == files.Keys + Written(fileOf, prefix)
    requires KeptFiles(fileOf, mid, prefix, files)
    requires TeamFilesWritten(fileOf, mid, prefix, groups, files)
    ensures TeamFilesWritten(fileOf, WriteTeam(fileOf, mid, last, groups[last]), prefix + [last], groups, files)
  {
    var f := fileOf[last];
    NotYetWritten(fileOf, prefix, last);
    assert ExistingRows(mid, f) == ExistingRows(files, f);
    var out := WriteTeam(fileOf, mid, last, groups[last]);
    assert out == mid[f := ToRows(TeamOutput(groups[last], IndexOf(ExistingRows(files, f))))];
    forall t | t in prefix + [last] && t in fileOf
      ensures fileOf[t] in out
      ensures out[fileOf[t]] == ToRows(TeamOutput(groups[t], IndexOf(ExistingRows(files, fileOf[t]))))
    {
      if t != last {
        assert t in prefix && fileOf[t] != f;
      }
    }
  }

  /** Writing a new team's file leaves every file outside the written ones as it was. */
  lemma MappedStepKept(fileOf: map<string, string>, mid: Directory, prefix: seq<string>, last: string,
                       groups: map<string, seq<SourceRow>>, files: Directory)
    requires GroupsReady(fileOf, prefix + [last], groups)
    requires last in fileOf
    requires KeptFiles(fileOf, mid, prefix, files)
    ensures KeptFiles(fileOf, WriteTeam(fileOf, mid, last, groups[last]), prefix + [last], files)
  {
    WrittenAppend(fileOf, prefix, last);
  }

  /** One more mapped team, distinct from those before it, keeps the description true. */
  lemma MappedStep(fileOf: map<string, string>, mid: Directory, prefix: seq<string>, last: string,
                   groups: map<string, seq<SourceRow>>, files: Directory)
    requires Injective(fileOf)
    requires GroupsReady(fileOf, prefix + [last], groups) && GroupsReady(fileOf, prefix, groups)
    requires last in fileOf && last !in prefix
    requires Describes(fileOf, mid, prefix, groups, files)
    ensures Describes(fileOf, WriteTeam(fileOf, mid, last, groups[last]), prefix + [last], groups, files)
  {
    WrittenAppend(fileOf, prefix, last);
    MappedStepFiles(fileOf, mid, prefix, last, groups, files);
    MappedStepKept(fileOf, mid, prefix, last, groups, files);
  }

  /** An unmapped team changes nothing. */
  lemma UnmappedStep(fileOf: map<string, string>, mid: Directory, prefix: seq<string>, last: string,
                     groups: map<string, seq<SourceRow>>, files: Directory)
    requires GroupsReady(fileOf, prefix + [last], groups) && GroupsReady(fileOf, prefix, groups)
    requires last !in fileOf
    requires Describes(fileOf, mid, prefix, groups, files)
    ensures Describes(fileOf, WriteTeam(fileOf, mid, last, groups[last]), prefix + [last], groups, files)
  {
    WrittenAppend(fileOf, prefix, last);
  }

  /**
   * Running the team loop over distinct teams: the directory gains exactly
   * the mapped teams' files; each holds its team processed against that
   * file's contents before the run; every other file is left as it was.
   */
  lemma {:induction false} RunTeamsFiles(fileOf: map<string, string>, order: seq<string>,
                                         groups: map<string, seq<SourceRow>>, files: Directory)
    requires Injective(fileOf)
    requires GroupsReady(fileOf, order, groups) && Distinct(order)
    ensures Describes(fileOf, RunTeams(fileOf, order, groups, files), order, groups, files)
  {
    if order != [] {
      var prefix, last := order[..|order| - 1], order[|order| - 1];
      assert order == prefix + [last];
      RunTeamsFiles(fileOf, prefix, groups, files);
      var mid := RunTeams(fileOf, prefix, groups, files);
      if last in fileOf {
        MappedStep(fileOf, mid, prefix, last, groups, files);
      } else {
        UnmappedStep(fileOf, mid, prefix, last, groups, files);
      }
    }
  }

  /**
   * One run of the script: the output directory holds every file it held
   * before plus one file per mapped team of the roster; that file's rows are
   * the team's roster rows processed against the file's previous contents
   * (none when it did not exist); no other file changes.
   */
  lemma RosterFiles(rows: seq<SourceRow>, files: Directory)
    requires RosterReady(rows)
    ensures var out := Roster(rows, files);
      var teams := TeamsInOrder(rows);
      && out.Keys == files.Keys + Written(OutputFiles, teams)
      && (forall t :: t in teams && t in OutputFiles ==>
            out[OutputFiles[t]] == ToRows(TeamOutput(RowsOf(rows, t), IndexOf(ExistingRows(files, OutputFiles[t])))))
      && (forall f :: f in files && f !in Written(OutputFiles, teams) ==> out[f] == files[f])
  {
    GroupedReady(rows);
    TeamsDistinct(rows);
    OutputFilesDistinct();
    RunTeamsFiles(OutputFiles, TeamsInOrder(rows), Grouped(rows), files);
  }

  /** Within every mapped team of the roster, no two rows share a `name`. */
  predicate NamesDistinctPerTeam(rows: seq<SourceRow>) {
    forall t :: t in TeamsInOrder(rows) && t in TeamMapping ==> Distinct(Names(RowsOf(rows, t)))
  }

  /** The index each mapped team of the roster reads from `files` is consistent. */
  ghost predicate ConsistentFiles(rows: seq<SourceRow>, files: Directory) {
    forall t :: t in TeamsInOrder(rows) && t in OutputFiles ==>
      Consistent(IndexOf(ExistingRows(files, OutputFiles[t])))
  }

  /** A mapped team's file after a run: its team processed against the file's previous rows. */
  lemma RosterTeamFile(rows: seq<SourceRow>, files: Directory, t: string)
    requires RosterReady(rows)
    requires t in TeamsInOrder(rows) && t in OutputFiles
    ensures TeamReady(RowsOf(rows, t))
    ensures OutputFiles[t] in Roster(rows, files)
    ensures Roster(rows, files)[OutputFiles[t]]
      == ToRows(TeamOutput(RowsOf(rows, t), IndexOf(ExistingRows(files, OutputFiles[t]))))
  {
    RosterFiles(rows, files);
    GroupedReady(rows);
  }

  /** A file no team of the roster writes is unchanged by a run. */
  lemma RosterKeptFile(rows: seq<SourceRow>, files: Directory, f: string)
    requires RosterReady(rows)
    requires f in files && f !in Written(OutputFiles, TeamsInOrder(rows))
    ensures f in Roster(rows, files) && Roster(rows, files)[f] == files[f]
  {
    RosterFiles(rows, files);
  }

  /** A run adds exactly the files of the roster's mapped teams. */
  lemma RosterKeys(rows: seq<SourceRow>, files: Directory)
    requires RosterReady(rows)
    ensures Roster(rows, files).Keys == files.Keys + Written(OutputFiles, TeamsInOrder(rows))
  {
    RosterFiles(rows, files);
  }

  /** The second run writes each file as the first did. */
  lemma RosterIdempotentAt(rows: seq<SourceRow>, files: Directory, f: string)
    requires RosterReady(rows)
    requires NamesDistinctPerTeam(rows)
    requires ConsistentFiles(rows, files)
    requires f in Roster(rows, files)
    ensures f in Roster(rows, Roster(rows, files))
    ensures Roster(rows, Roster(rows, files))[f] == Roster(rows, files)[f]
  {
    var once := Roster(rows, files);
    var teams := TeamsInOrder(rows);
    if f in Written(OutputFiles, teams) {
      var t :| t in teams && t in OutputFiles && OutputFiles[t] == f;
      RosterTeamFile(rows, files, t);
      RosterTeamFile(rows, once, t);
      TeamIdempotent(RowsOf(rows, t), ExistingRows(files, f));
    } else {
      RosterKeptFile(rows, once, f);
    }
  }

  /**
   * Running the script again on the same roster, against the directory it
   * produced, changes nothing, provided names are distinct within each team
   * and the team files it first read index consistently.
   */
  lemma RosterIdempotent(rows: seq<SourceRow>, files: Directory)
    requires RosterReady(rows)
    requires NamesDistinctPerTeam(rows)
    requires ConsistentFiles(rows, files)
    ensures Roster(rows, Roster(rows, files)) == Roster(rows, files)
  {
    var once := Roster(rows, files);
    var twice := Roster(rows, once);
    RosterKeys(rows, files);
    RosterKeys(rows, once);
    forall f | f in once
      ensures twice[f] == once[f]
    {
      RosterIdempotentAt(rows, files, f);
    }
    SameEntries(twice, once);
  }

  /** Two maps with the same keys and the same value at each key are equal. */
  lemma SameEntries<K, V>(a: map<K, V>, b: map<K, V>)
    requires a.Keys == b.Keys
    requires forall k :: k in b ==> a[k] == b[k]
    ensures a == b
  {
  }

  /** Every team file of the roster in a directory the script produced indexes consistently. */
  lemma ProducedFilesConsistent(rows: seq<SourceRow>, files: Directory)
    requires RosterReady(rows)
    ensures ConsistentFiles(rows, Roster(rows, files))
  {
    forall t | t in TeamsInOrder(rows) && t in OutputFiles
      ensures Consistent(IndexOf(ExistingRows(Roster(rows, files), OutputFiles[t])))
    {
      RosterTeamFile(rows, files, t);
      WrittenFileIsConsistent(TeamOutput(RowsOf(rows, t), IndexOf(ExistingRows(files, OutputFiles[t]))));
    }
  }

  /**
   * Whatever the directory held first, from the second run on the script's
   * output is stable: the third run writes what the second wrote.
   */
  lemma StableFromSecondRun(rows: seq<SourceRow>, files: Directory)
    requires RosterReady(rows)
    requires NamesDistinctPerTeam(rows)
    ensures var once := Roster(rows, files);
      Roster(rows, Roster(rows, once)) == Roster(rows, once)
  {
    ProducedFilesConsistent(rows, files);
    RosterIdempotent(rows, Roster(rows, files));
  }
}
