/**
 * The loading loop of `process_roster`: roster rows are grouped by their
 * `team` value into an insertion-ordered dictionary of row lists.
 */
module Grouping {
  import opened Records

  /** The teams of `rows`, each once, in the order they first appear. */
  function TeamsInOrder(rows: seq<SourceRow>): seq<string> {
    if rows == [] then []
    else
      var teams := TeamsInOrder(rows[..|rows| - 1]);
      var team := rows[|rows| - 1].team;
      if team in teams then teams else teams + [team]
  }

  /** The rows of `team`, in roster order. */
  function RowsOf(rows: seq<SourceRow>, team: string): (group: seq<SourceRow>)
    ensures |group| <= |rows|
    ensures forall k :: 0 <= k < |group| ==> group[k].team == team && group[k] in rows
  {
    if rows == [] then []
    else
      var row := rows[|rows| - 1];
      RowsOf(rows[..|rows| - 1], team) + (if row.team == team then [row] else [])
  }

  /** `players_by_team` as a map; its key order is `TeamsInOrder(rows)`. */
  function Grouped(rows: seq<SourceRow>): map<string, seq<SourceRow>> {
    map team | team in TeamsInOrder(rows) :: RowsOf(rows, team)
  }

  /**
   * Builds the dictionary row by row: a team seen for the first time gets an
   * empty list at the end of the key order, then the row is appended to its
   * team's list.
   */
  method GroupByTeam(rows: seq<SourceRow>) returns (order: seq<string>, playersByTeam: map<string, seq<SourceRow>>)
    ensures order == TeamsInOrder(rows)
    ensures playersByTeam == Grouped(rows)
  {
    order, playersByTeam := [], map[];
    for i := 0 to |rows|
      invariant order == TeamsInOrder(rows[..i])
      invariant playersByTeam.Keys == set team | team in order
      invariant forall team :: team in playersByTeam ==> playersByTeam[team] == RowsOf(rows[..i], team)
    {
      var team := rows[i].team;
      assert rows[..i + 1][..i] == rows[..i];
      TeamsCover(rows[..i], team);
      if team !in playersByTeam {
        playersByTeam := playersByTeam[team := []];
        order := order + [team];
      }
      playersByTeam := playersByTeam[team := playersByTeam[team] + [rows[i]]];
    }
    assert rows[..|rows|] == rows;
  }

  /** A team is listed exactly when some row has it; otherwise it has no rows. */
  lemma {:induction false} TeamsCover(rows: seq<SourceRow>, team: string)
    ensures team in TeamsInOrder(rows) <==> exists i :: 0 <= i < |rows| && rows[i].team == team
    ensures team !in TeamsInOrder(rows) ==> RowsOf(rows, team) == []
  {
    if rows != [] {
      var prefix := rows[..|rows| - 1];
      TeamsCover(prefix, team);
      assert forall i :: 0 <= i < |prefix| ==> prefix[i] == rows[i];
      if team !in TeamsInOrder(rows) {
        assert team !in TeamsInOrder(prefix);
      }
    }
  }

  /** No team is listed twice. */
  lemma {:induction false} TeamsDistinct(rows: seq<SourceRow>)
    ensures forall i, j :: 0 <= i < j < |TeamsInOrder(rows)| ==> TeamsInOrder(rows)[i] != TeamsInOrder(rows)[j]
  {
    if rows != [] {
      TeamsDistinct(rows[..|rows| - 1]);
    }
  }

  /** Teams are listed in first-seen order: before any row of a later team, some row of an earlier team occurs. */
  lemma {:induction false} TeamsInFirstSeenOrder(rows: seq<SourceRow>, i: nat, j: nat, q: nat)
    requires i < j < |TeamsInOrder(rows)|
    requires q < |rows| && rows[q].team == TeamsInOrder(rows)[j]
    ensures exists p :: 0 <= p < q && rows[p].team == TeamsInOrder(rows)[i]
  {
    var n := |rows|;
    var prefix := rows[..n - 1];
    var before := TeamsInOrder(prefix);
    var teams := TeamsInOrder(rows);
    assert forall k :: 0 <= k < n - 1 ==> prefix[k] == rows[k];
    assert i < |before|;
    if j < |before| {
      assert teams[j] == before[j] && teams[i] == before[i];
      if q < n - 1 {
        TeamsInFirstSeenOrder(prefix, i, j, q);
      } else {
        TeamsCover(prefix, teams[j]);
        var q' :| 0 <= q' < n - 1 && prefix[q'].team == teams[j];
        TeamsInFirstSeenOrder(prefix, i, j, q');
      }
    } else {
      // teams[j] is the team rows[n - 1] introduced, so it has no earlier row.
      assert teams == before + [rows[n - 1].team];
      TeamsCover(prefix, teams[j]);
      assert q == n - 1;
      TeamsCover(prefix, teams[i]);
    }
  }

  lemma {:induction false} RowsOfConcat(a: seq<SourceRow>, b: seq<SourceRow>, team: string)
    ensures RowsOf(a + b, team) == RowsOf(a, team) + RowsOf(b, team)
  {
    if b == [] {
      assert a + b == a;
    } else {
      var b' := b[..|b| - 1];
      RowsOfConcat(a, b', team);
      assert (a + b)[..|a + b| - 1] == a + b';
    }
  }

  /**
   * Every row sits in its own team's group, at the position given by the
   * number of same-team rows before it; that position grows with the row's
   * index, so each group keeps roster order and holds each row once.
   */
  lemma RowPlacement(rows: seq<SourceRow>, i: nat)
    requires i < |rows|
    ensures var t := rows[i].team; var k := |RowsOf(rows[..i], t)|;
      k < |RowsOf(rows, t)| && RowsOf(rows, t)[k] == rows[i]
    ensures forall j :: i < j < |rows| && rows[j].team == rows[i].team ==>
      |RowsOf(rows[..i], rows[i].team)| < |RowsOf(rows[..j], rows[i].team)|
  {
    var t := rows[i].team;
    assert rows == rows[..i + 1] + rows[i + 1..];
    RowsOfConcat(rows[..i + 1], rows[i + 1..], t);
    assert rows[..i + 1][..i] == rows[..i];
    forall j | i < j < |rows| && rows[j].team == t
      ensures |RowsOf(rows[..i], t)| < |RowsOf(rows[..j], t)|
    {
      assert rows[..j] == rows[..i + 1] + rows[i + 1..j];
      RowsOfConcat(rows[..i + 1], rows[i + 1..j], t);
    }
  }

  /** Sum of the group sizes of `teams`. */
  function SizeSum(rows: seq<SourceRow>, teams: seq<string>): nat {
    if teams == [] then 0 else SizeSum(rows, teams[..|teams| - 1]) + |RowsOf(rows, teams[|teams| - 1])|
  }

  /** Number of times `team` occurs in `teams`. */
  function Occurrences(teams: seq<string>, team: string): nat {
    if teams == [] then 0
    else Occurrences(teams[..|teams| - 1], team) + (if teams[|teams| - 1] == team then 1 else 0)
  }

  lemma {:induction false} SizeSumAppendRow(rows: seq<SourceRow>, row: SourceRow, teams: seq<string>)
    ensures SizeSum(rows + [row], teams) == SizeSum(rows, teams) + Occurrences(teams, row.team)
  {
    assert (rows + [row])[..|rows|] == rows;
    if teams != [] {
      SizeSumAppendRow(rows, row, teams[..|teams| - 1]);
    }
  }

  lemma {:induction false} OccurrencesInDistinct(teams: seq<string>, team: string)
    requires forall i, j :: 0 <= i < j < |teams| ==> teams[i] != teams[j]
    ensures Occurrences(teams, team) == if team in teams then 1 else 0
  {
    if teams != [] {
      var prefix := teams[..|teams| - 1];
      OccurrencesInDistinct(prefix, team);
      assert teams == prefix + [teams[|teams| - 1]];
      if teams[|teams| - 1] == team {
        assert team !in prefix;
      }
    }
  }

  /** The groups together hold exactly as many rows as the roster. */
  lemma {:induction false} GroupSizesSum(rows: seq<SourceRow>)
    ensures SizeSum(rows, TeamsInOrder(rows)) == |rows|
  {
    if rows != [] {
      var n := |rows|;
      var prefix := rows[..n - 1];
      var row := rows[n - 1];
      var before := TeamsInOrder(prefix);
      assert rows == prefix + [row];
      GroupSizesSum(prefix);
      TeamsDistinct(prefix);
      SizeSumAppendRow(prefix, row, before);
      OccurrencesInDistinct(before, row.team);
      if row.team !in before {
        TeamsCover(prefix, row.team);
        assert RowsOf(rows, row.team) == [row];
        assert TeamsInOrder(rows)[..|before|] == before;
      }
    }
  }
}
