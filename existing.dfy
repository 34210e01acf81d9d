/**
 * `read_existing_team_data`: indexes the rows of a team file written by an
 * earlier run, keeping for each player only the five protected columns.
 * A file that does not exist reads as no rows, and so as the empty index.
 */
module Existing {
  import opened Records

  /** `row.get(column, '')`. */
  function Cell(row: Row, column: string): string {
    if column in row then row[column] else ""
  }

  /**
   * The index key of a row: its `englishName` whenever that column is
   * present, even when blank, and its `name` only when it is absent.
   */
  function KeyOf(row: Row): string {
    if "englishName" in row then row["englishName"] else Cell(row, "name")
  }

  /** The protected columns of a row; a missing column reads as "". */
  function ProtectedOf(row: Row): Protected {
    Protected(
      Cell(row, "name"), Cell(row, "englishName"), Cell(row, "position"),
      Cell(row, "playerType"), Cell(row, "rotationType"))
  }

  /** The index after reading `rows` in order: blank keys are skipped and a later row replaces an earlier one. */
  function IndexOf(rows: seq<Row>): (index: map<string, Protected>)
    ensures "" !in index
  {
    if rows == [] then map[]
    else
      var index := IndexOf(rows[..|rows| - 1]);
      var row := rows[|rows| - 1];
      if KeyOf(row) != "" then index[KeyOf(row) := ProtectedOf(row)] else index
  }

  method ReadExistingTeamData(rows: seq<Row>) returns (playerInfo: map<string, Protected>)
    ensures playerInfo == IndexOf(rows)
  {
    playerInfo := map[];
    for i := 0 to |rows|
      invariant playerInfo == IndexOf(rows[..i])
    {
      var row := rows[i];
      var englishName := if "englishName" in row then row["englishName"] else Cell(row, "name");
      if englishName != "" {
        playerInfo := playerInfo[englishName := Protected(
          Cell(row, "name"), Cell(row, "englishName"), Cell(row, "position"),
          Cell(row, "playerType"), Cell(row, "rotationType"))];
      }
      assert rows[..i + 1][..i] == rows[..i];
    }
    assert rows[..|rows|] == rows;
  }

  /**
   * A key is indexed exactly when it is non-blank and some row has it, and
   * its entry holds the protected columns of the last row with that key.
   */
  lemma IndexOfLookup(rows: seq<Row>, k: string)
    ensures k in IndexOf(rows) <==> k != "" && exists j :: 0 <= j < |rows| && KeyOf(rows[j]) == k
    ensures k in IndexOf(rows) ==>
      exists j :: 0 <= j < |rows| && KeyOf(rows[j]) == k && IndexOf(rows)[k] == ProtectedOf(rows[j])
        && forall j' :: j < j' < |rows| ==> KeyOf(rows[j']) != k
  {
    IndexOfMember(rows, k);
    if k in IndexOf(rows) {
      IndexOfLast(rows, k);
    }
  }

  lemma {:induction false} IndexOfMember(rows: seq<Row>, k: string)
    ensures k in IndexOf(rows) <==> k != "" && exists j :: 0 <= j < |rows| && KeyOf(rows[j]) == k
  {
    if rows != [] {
      var n := |rows|;
      var prefix := rows[..n - 1];
      IndexOfMember(prefix, k);
      assert forall j :: 0 <= j < n - 1 ==> prefix[j] == rows[j];
    }
  }

  lemma {:induction false} IndexOfLast(rows: seq<Row>, k: string)
    requires k in IndexOf(rows)
    ensures exists j :: 0 <= j < |rows| && KeyOf(rows[j]) == k && IndexOf(rows)[k] == ProtectedOf(rows[j])
                        && forall j' :: j < j' < |rows| ==> KeyOf(rows[j']) != k
  {
    var n := |rows|;
    var prefix, last := rows[..n - 1], rows[n - 1];
    if KeyOf(last) == k {
      assert IndexOf(rows)[k] == ProtectedOf(rows[n - 1]);
    } else {
      assert k in IndexOf(prefix) && IndexOf(rows)[k] == IndexOf(prefix)[k];
      IndexOfLast(prefix, k);
      var j :| 0 <= j < n - 1 && KeyOf(prefix[j]) == k && IndexOf(prefix)[k] == ProtectedOf(prefix[j])
        && forall j' :: j < j' < n - 1 ==> KeyOf(prefix[j']) != k;
      assert rows[j] == prefix[j];
      forall j' | j < j' < n
        ensures KeyOf(rows[j']) != k
      {
        if j' < n - 1 {
          assert rows[j'] == prefix[j'];
        }
      }
    }
  }

  /** A blank `englishName` drops the row even when its `name` is filled in. */
  lemma BlankEnglishNameIsSkipped(rows: seq<Row>, row: Row)
    requires "englishName" in row && row["englishName"] == ""
    ensures IndexOf(rows + [row]) == IndexOf(rows)
  {
    assert (rows + [row])[..|rows|] == rows;
  }

  /** Without an `englishName` column the row is keyed by its `name`, and its stored `englishName` is "". */
  lemma MissingEnglishNameFallsBackToName(rows: seq<Row>, row: Row)
    requires "englishName" !in row && "name" in row && row["name"] != ""
    ensures IndexOf(rows + [row]) == IndexOf(rows)[row["name"] := ProtectedOf(row)]
    ensures ProtectedOf(row).englishName == ""
  {
    assert (rows + [row])[..|rows|] == rows;
  }

  /** Every entry's key is its own stored `englishName`. */
  ghost predicate Consistent(index: map<string, Protected>) {
    forall k :: k in index ==> index[k].englishName == k
  }

  /** A file whose rows all have an `englishName` column indexes consistently. */
  lemma HeaderWithEnglishNameIsConsistent(rows: seq<Row>)
    requires forall j :: 0 <= j < |rows| ==> "englishName" in rows[j]
    ensures Consistent(IndexOf(rows))
  {
    forall k | k in IndexOf(rows)
      ensures IndexOf(rows)[k].englishName == k
    {
      IndexOfLookup(rows, k);
    }
  }

  /** Reading back a written row gives its player's key and protected columns. */
  lemma ReadBackWrittenRow(p: Player)
    ensures "englishName" in ToRow(p)
    ensures KeyOf(ToRow(p)) == p.info.englishName
    ensures ProtectedOf(ToRow(p)) == p.info
  {
  }

  /** Reading back row `j` of a written file gives record `j`'s key and protected columns. */
  lemma ReadBackWrittenRows(ps: seq<Player>, j: nat)
    requires j < |ps|
    ensures j < |ToRows(ps)|
    ensures KeyOf(ToRows(ps)[j]) == ps[j].info.englishName
    ensures ProtectedOf(ToRows(ps)[j]) == ps[j].info
  {
    ToRowsAt(ps, j);
    ReadBackWrittenRow(ps[j]);
  }

  /** The index read from any file this program wrote. */
  lemma {:induction false} WrittenFileIsConsistent(ps: seq<Player>)
    ensures Consistent(IndexOf(ToRows(ps)))
  {
    var rows := ToRows(ps);
    forall j | 0 <= j < |rows|
      ensures "englishName" in rows[j]
    {
      ToRowsAt(ps, j);
      ReadBackWrittenRow(ps[j]);
    }
    HeaderWithEnglishNameIsConsistent(rows);
  }
}
