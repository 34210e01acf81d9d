/**
 * The per-team body of `process_roster`: each row is processed, its
 * protected columns are taken from the team's existing file when the row's
 * `name` is indexed there, and the list is sorted by rating.
 */
module TeamProcessing {
  import opened Numeric
  import opened Records
  import opened Transform
  import opened Existing
  import opened Ordering

  /** The freshly processed records of a team's rows, before reconciliation. */
  function Processed(players: seq<SourceRow>): (computed: seq<Player>)
    requires forall i :: 0 <= i < |players| ==> Computable(players[i])
    ensures |computed| == |players|
  {
    seq(|players|, i requires 0 <= i < |players| => ProcessPlayer(players[i]))
  }

  /** The lookup key of each row: its `name`, which the roster holds in English. */
  function Names(players: seq<SourceRow>): (names: seq<string>)
    ensures |names| == |players|
  {
    seq(|players|, i requires 0 <= i < |players| => players[i].name)
  }

  /** A record whose key is indexed takes the five protected columns stored under it. */
  function Reconcile(processed: Player, key: string, existing: map<string, Protected>): Player {
    if key in existing then processed.(info := existing[key]) else processed
  }

  /**
   * The records after reconciliation, in roster order: record `i` keeps its
   * freshly computed ratings, and takes exactly the protected columns stored
   * under its key when the key is indexed, keeping its own otherwise.
   */
  function Merged(processed: seq<Player>, keys: seq<string>, existing: map<string, Protected>): (merged: seq<Player>)
    requires |processed| == |keys|
    ensures |merged| == |processed|
    ensures forall i :: 0 <= i < |processed| ==>
      && merged[i].stats == processed[i].stats
      && merged[i].info == (if keys[i] in existing then existing[keys[i]] else processed[i].info)
  {
    seq(|processed|, i requires 0 <= i < |processed| => Reconcile(processed[i], keys[i], existing))
  }

  /** What the script writes for a team: the reconciled records, stably sorted by descending integer rating. */
  function TeamOutput(players: seq<SourceRow>, existing: map<string, Protected>): seq<Player>
    requires forall i :: 0 <= i < |players| ==> Computable(players[i])
  {
    SortDescending(Merged(Processed(players), Names(players), existing), RatingKey)
  }

  method ProcessTeam(players: seq<SourceRow>, existing: map<string, Protected>) returns (processedPlayers: seq<Player>)
    requires forall i :: 0 <= i < |players| ==> Computable(players[i]) && IsInt(players[i].overallAttribute)
    ensures processedPlayers == TeamOutput(players, existing)
  {
    ghost var computed, names := Processed(players), Names(players);
    var merged: seq<Player> := [];
    for i := 0 to |players|
      invariant |merged| == i
      invariant forall k :: 0 <= k < i ==> merged[k] == Reconcile(computed[k], names[k], existing)
    {
      var playerRow := players[i];
      var processed := ProcessPlayer(playerRow);
      ghost var reconciled := Reconcile(processed, playerRow.name, existing);
      var playerEnglishName := playerRow.name;
      if playerEnglishName in existing {
        var existingData := existing[playerEnglishName];
        processed := processed.(info := Protected(
          existingData.name, existingData.englishName, existingData.position,
          existingData.playerType, existingData.rotationType));
      }
      assert processed == reconciled;
      AppendReconciled(merged, computed, names, existing, processed);
      merged := merged + [processed];
    }
    assert merged == Merged(computed, names, existing);
    var a := new Player[|merged|](k requires 0 <= k < |merged| => merged[k]);
    assert a[..] == merged;
    SortInPlace(a, RatingKey);
    processedPlayers := a[..];
  }

  lemma AppendReconciled(merged: seq<Player>, computed: seq<Player>, keys: seq<string>,
                         existing: map<string, Protected>, p: Player)
    requires |merged| < |computed| && |computed| == |keys|
    requires forall k :: 0 <= k < |merged| ==> merged[k] == Reconcile(computed[k], keys[k], existing)
    requires p == Reconcile(computed[|merged|], keys[|merged|], existing)
    ensures forall k :: 0 <= k < |merged| + 1 ==> (merged + [p])[k] == Reconcile(computed[k], keys[k], existing)
  {
  }

  /**
   * Each processed record is its row processed; its `englishName` is the
   * row's lookup key and its rating is the row's `overallAttribute`.
   */
  lemma ProcessedRecords(players: seq<SourceRow>)
    requires forall i :: 0 <= i < |players| ==> Computable(players[i])
    ensures forall i :: 0 <= i < |players| ==>
      && Processed(players)[i] == ProcessPlayer(players[i])
      && Processed(players)[i].info.englishName == Names(players)[i] == players[i].name
      && Processed(players)[i].stats.rating == players[i].overallAttribute
  {
  }

  /**
   * A team's file holds one record per roster row of the team, in
   * non-increasing integer rating, with equal ratings in roster order.
   */
  lemma TeamOutputOrdered(players: seq<SourceRow>, existing: map<string, Protected>)
    requires forall i :: 0 <= i < |players| ==> Computable(players[i])
    ensures var out := TeamOutput(players, existing);
      var merged := Merged(Processed(players), Names(players), existing);
      && |out| == |players|
      && multiset(out) == multiset(merged)
      && Descending(out, RatingKey)
      && forall v :: WithKey(out, RatingKey, v) == WithKey(merged, RatingKey, v)
  {
    var merged := Merged(Processed(players), Names(players), existing);
    SortIsDescending(merged, RatingKey);
    forall v
      ensures WithKey(SortDescending(merged, RatingKey), RatingKey, v) == WithKey(merged, RatingKey, v)
    {
      SortIsStable(merged, RatingKey, v);
    }
  }

  predicate Distinct(keys: seq<string>) {
    forall i, j :: 0 <= i < j < |keys| ==> keys[i] != keys[j]
  }

  /** Every record's `englishName` is its key. */
  predicate Keyed(processed: seq<Player>, keys: seq<string>) {
    |processed| == |keys| && forall i :: 0 <= i < |keys| ==> processed[i].info.englishName == keys[i]
  }

  /** A permutation of keyed records writes a row keyed by each record's key. */
  lemma WrittenKeyPresent(merged: seq<Player>, keys: seq<string>, out: seq<Player>, i: nat)
    requires Keyed(merged, keys) && multiset(out) == multiset(merged)
    requires i < |keys|
    ensures exists j :: 0 <= j < |ToRows(out)| && KeyOf(ToRows(out)[j]) == keys[i]
  {
    assert merged[i] in multiset(out);
    var j :| 0 <= j < |out| && out[j] == merged[i];
    ReadBackWrittenRows(out, j);
  }

  /** With distinct keys, the only rows keyed by record `i`'s key hold record `i`'s protected columns. */
  lemma WrittenKeyUnique(merged: seq<Player>, keys: seq<string>, out: seq<Player>, i: nat, j: nat)
    requires Keyed(merged, keys) && Distinct(keys) && multiset(out) == multiset(merged)
    requires i < |keys| && j < |out|
    requires KeyOf(ToRows(out)[j]) == keys[i]
    ensures ProtectedOf(ToRows(out)[j]) == merged[i].info
  {
    ReadBackWrittenRows(out, j);
    var p := out[j];
    assert p.info.englishName == keys[i];
    var i' := SourceIndex(out, merged, j);
    assert merged[i'].info.englishName == keys[i'];
    assert i' == i;
  }

  /** Where element `j` of a permutation of `s` sits in `s`. */
  lemma SourceIndex<T>(out: seq<T>, s: seq<T>, j: nat) returns (i: nat)
    requires multiset(out) == multiset(s) && j < |out|
    ensures i < |s| && s[i] == out[j]
  {
    assert out[j] in multiset(s);
    i :| 0 <= i < |s| && s[i] == out[j];
  }

  /**
   * Reading back the file written from keyed records with distinct keys, in
   * any order: a key is indexed exactly when it is non-blank, and then under
   * it sit the protected columns its record was written with.
   */
  lemma RereadIndex(merged: seq<Player>, keys: seq<string>, key: Player -> int, i: nat)
    requires Keyed(merged, keys) && Distinct(keys)
    requires i < |keys|
    ensures var reread := IndexOf(ToRows(SortDescending(merged, key)));
      && (keys[i] in reread <==> keys[i] != "")
      && (keys[i] in reread ==> reread[keys[i]] == merged[i].info)
  {
    var out := SortDescending(merged, key);
    var rows := ToRows(out);
    IndexOfLookup(rows, keys[i]);
    WrittenKeyPresent(merged, keys, out, i);
    if keys[i] in IndexOf(rows) {
      var j :| 0 <= j < |rows| && KeyOf(rows[j]) == keys[i] && IndexOf(rows)[keys[i]] == ProtectedOf(rows[j])
        && forall j' :: j < j' < |rows| ==> KeyOf(rows[j']) != keys[i];
      WrittenKeyUnique(merged, keys, out, i, j);
    }
  }

  /**
   * Reconciling keyed records with distinct keys against the index read back
   * from their own sorted output reproduces them, provided the first index
   * was consistent and had no blank key.
   */
  lemma {:induction false} MergedIdempotent(processed: seq<Player>, keys: seq<string>,
                                            existing: map<string, Protected>, key: Player -> int)
    requires Keyed(processed, keys) && Distinct(keys)
    requires Consistent(existing) && "" !in existing
    ensures var merged := Merged(processed, keys, existing);
      Merged(processed, keys, IndexOf(ToRows(SortDescending(merged, key)))) == merged
  {
    var merged := Merged(processed, keys, existing);
    assert Keyed(merged, keys);
    var again := Merged(processed, keys, IndexOf(ToRows(SortDescending(merged, key))));
    forall i | 0 <= i < |keys|
      ensures again[i] == merged[i]
    {
      RereadIndex(merged, keys, key, i);
    }
  }

  /**
   * Re-running a team on an unchanged roster, with the file the previous run
   * wrote as the existing file, writes the same records again. This needs
   * distinct names within the team, and a first index whose keys are the
   * stored `englishName`s, which every file this program writes gives.
   */
  lemma {:induction false} TeamIdempotent(players: seq<SourceRow>, priorRows: seq<Row>)
    requires forall i :: 0 <= i < |players| ==> Computable(players[i])
    requires Distinct(Names(players))
    requires Consistent(IndexOf(priorRows))
    ensures var first := TeamOutput(players, IndexOf(priorRows));
      TeamOutput(players, IndexOf(ToRows(first))) == first
  {
    ProcessedRecords(players);
    MergedIdempotent(Processed(players), Names(players), IndexOf(priorRows), RatingKey);
  }

  /** Against an empty index every record keeps its own protected columns. */
  lemma MergedWithoutIndex(processed: seq<Player>, keys: seq<string>)
    requires |processed| == |keys|
    ensures Merged(processed, keys, map[]) == processed
  {
  }

  /**
   * Two records with the same key and rating but different protected
   * columns: written in order, then reconciled against what was written,
   * both take the second record's columns, so the first row changes.
   */
  lemma SharedKeyRewritten(ps: seq<Player>, keys: seq<string>)
    requires Keyed(ps, keys) && |ps| == 2
    requires keys[0] == keys[1] != ""
    requires ps[0].info != ps[1].info && ps[0].stats.rating == ps[1].stats.rating
    ensures var first := SortDescending(ps, RatingKey);
      var again := SortDescending(Merged(ps, keys, IndexOf(ToRows(first))), RatingKey);
      again[0].info == again[1].info == ps[1].info != first[0].info
  {
    SortTwoInOrder(ps, RatingKey);
    var rows := ToRows(ps);
    ReadBackWrittenRows(ps, 1);
    assert rows[..|rows| - 1] == rows[..1];
    var index := IndexOf(rows);
    assert index[keys[0]] == ps[1].info;
    var m := Merged(ps, keys, index);
    SortTwoInOrder(m, RatingKey);
  }

  /**
   * Without distinct names a rerun can change the file: two rows with the
   * same name and rating but different positions are written with their own
   * positions by a first run with no file, and both take the second row's
   * protected columns on the next run.
   */
  lemma DuplicateNamesBreakIdempotence(players: seq<SourceRow>)
    requires forall i :: 0 <= i < |players| ==> Computable(players[i])
    requires |players| == 2
    requires players[0].name == players[1].name != ""
    requires players[0].position != players[1].position
    requires players[0].overallAttribute == players[1].overallAttribute
    ensures var first := TeamOutput(players, map[]);
      TeamOutput(players, IndexOf(ToRows(first))) != first
  {
    var computed := Processed(players);
    var names := Names(players);
    ProcessedInfo(players, 0);
    ProcessedInfo(players, 1);
    assert Keyed(computed, names);
    MergedWithoutIndex(computed, names);
    SharedKeyRewritten(computed, names);
  }

  /** The protected columns and rating of processed record `i`. */
  lemma ProcessedInfo(players: seq<SourceRow>, i: nat)
    requires forall i :: 0 <= i < |players| ==> Computable(players[i])
    requires i < |players|
    ensures Processed(players)[i].info == Protected(players[i].name, players[i].name, players[i].position, "", "")
    ensures Processed(players)[i].stats.rating == players[i].overallAttribute
    ensures Names(players)[i] == players[i].name
  {
  }

  /**
   * Rows sharing a name all take the one entry stored under it, so from the
   * second run on, duplicates carry identical protected columns.
   */
  lemma DuplicateNamesShareProtectedFields(players: seq<SourceRow>, existing: map<string, Protected>, i: nat, j: nat)
    requires forall i :: 0 <= i < |players| ==> Computable(players[i])
    requires i < |players| && j < |players|
    requires players[i].name == players[j].name && players[i].name in existing
    ensures var merged := Merged(Processed(players), Names(players), existing);
      merged[i].info == merged[j].info == existing[players[i].name]
  {
  }

  /**
   * An edited `playerType` survives a run: a player whose earlier row has
   * `englishName` equal to the roster `name` and `playerType` "Starter" keeps
   * "Starter", while every rating comes from the roster row.
   */
  lemma EditedPlayerTypeSurvives(row: SourceRow, priorRow: Row)
    requires Computable(row) && row.name != ""
    requires "englishName" in priorRow && priorRow["englishName"] == row.name
    requires "playerType" in priorRow && priorRow["playerType"] == "Starter"
    ensures var out := TeamOutput([row], IndexOf([priorRow]));
      |out| == 1 && out[0].info.playerType == "Starter" && out[0].stats == ProcessPlayer(row).stats
  {
    assert [priorRow][..0] == [];
    var merged := Merged(Processed([row]), Names([row]), IndexOf([priorRow]));
    assert merged[0].info == ProtectedOf(priorRow);
    assert [merged[0]][..0] == [];
    assert SortDescending(merged, RatingKey) == merged;
  }
}
