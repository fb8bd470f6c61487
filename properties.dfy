/**
 * What the row pipeline promises over a run: the species a row is looked up
 * under, one lookup per distinct name, one written row per input row in input
 * order, which rows are reported unmatched and with what fields, the columns the
 * writer can refuse, and where the unmatched report goes.
 */
module RunProperties {
  import opened Wrappers
  import opened Tables
  import opened Merge
  import opened Fields
  import opened Pipeline

  // ---------------------------------------------------------------------------
  // One row
  // ---------------------------------------------------------------------------

  /**
   * A row is looked up under its mapped `species_name` value exactly as read (not
   * trimmed), and only when that value is present and not blank.
   */
  lemma LookupKeyIsSpecies(env: Env, row: Row)
    ensures var m := MapRow(env.mapping, row);
      LookupKey(env, row) == if SpeciesColumn in m && !IsBlank(m[SpeciesColumn]) then Some(m[SpeciesColumn]) else None
  {
    LastValueInMappedRow(env.mapping, row, SpeciesColumn);
  }

  /** A row with a missing, empty or whitespace-only species is not looked up, not reported, and written as mapped. */
  lemma BlankSpecies(env: Env, row: Row)
    requires var m := MapRow(env.mapping, row); SpeciesColumn !in m || IsBlank(m[SpeciesColumn])
    ensures LookupKey(env, row).None? && RowUnmatched(env, row).None?
    ensures RowDict(env, row) == MapRow(env.mapping, row)
  {
    LookupKeyIsSpecies(env, row);
  }

  /**
   * A name finds no match exactly when the search gives no result list, or a list
   * (possibly empty) in which no entry is tagged `taicol`, `col` or `gbif`.
   */
  lemma NoMatch(env: Env, species: string)
    ensures Resolve(env, species).None? <==>
      || env.search(species).None?
      || forall i :: 0 <= i < |env.search(species).value| ==> env.search(species).value[i].source.Other?
  {
    if env.search(species).Some? {
      MergeEmptyIffAllOther(env.search(species).value, env.higherTaxa);
    }
  }

  /** On a match, the merged columns overwrite same-named columns of the mapped row; the rest stay. */
  lemma MatchedRow(env: Env, row: Row, species: string, rec: Record)
    requires LookupKey(env, row) == Some(species) && Resolve(env, species) == Some(rec)
    ensures rec != map[]
    ensures forall c :: c in RowDict(env, row) <==> c in rec || c in MapRow(env.mapping, row)
    ensures forall c :: c in rec ==> RowDict(env, row)[c] == rec[c]
    ensures forall c :: c in MapRow(env.mapping, row) && c !in rec ==> RowDict(env, row)[c] == MapRow(env.mapping, row)[c]
  {
  }

  /**
   * A row is reported unmatched exactly when its species is present, not blank and
   * finds no match; the record has an empty `voucher_id`, the last `unit_id` or
   * `voucher_id` column's value as `unit_id`, the untrimmed species, and the
   * row's `family_name` value or ''.
   */
  lemma UnmatchedRecord(env: Env, row: Row)
    ensures var m := MapRow(env.mapping, row);
      RowUnmatched(env, row).Some? <==>
        SpeciesColumn in m && !IsBlank(m[SpeciesColumn]) && Resolve(env, m[SpeciesColumn]).None?
    ensures var m := MapRow(env.mapping, row);
      RowUnmatched(env, row).Some? ==>
        && RowUnmatched(env, row).value.voucherId == ""
        && RowUnmatched(env, row).value.unitId == OrEmpty(LastValue(env.mapping, row, UnitColumns))
        && RowUnmatched(env, row).value.speciesName == m[SpeciesColumn]
        && RowUnmatched(env, row).value.familyName == (if FamilyColumn in m then m[FamilyColumn] else "")
  {
    LookupKeyIsSpecies(env, row);
    LastValueInMappedRow(env.mapping, row, FamilyColumn);
  }

  /** The columns of a mapped row are the mapped names of its columns. */
  lemma {:induction false} MapRowKeys(mapping: map<string, string>, row: Row)
    ensures forall c :: c in MapRow(mapping, row) <==> exists i :: 0 <= i < |row| && MapKey(mapping, row[i].0) == c
    decreases |row|
  {
    if row != [] {
      var n := |row| - 1;
      MapRowKeys(mapping, row[..n]);
      forall i | 0 <= i < n ensures row[..n][i] == row[i] { }
    }
  }

  /**
   * With the header the run builds, a row whose columns are all input columns can
   * be refused by the writer for one column only: `family_name`.
   */
  lemma RefusedOnlyFamily(config: IniConfig, inputHeader: seq<string>, search: string -> Option<seq<ResultEntry>>,
                          higherTaxa: string -> seq<RankEntry>, row: Row)
    requires forall i :: 0 <= i < |row| ==> row[i].0 in inputHeader
    ensures var mapping := ColumnMapping(config, inputHeader);
      var env := Env(mapping, Header(mapping, inputHeader), search, higherTaxa);
      ExtraKeys(env.header, RowDict(env, row)) <= {FamilyColumn}
  {
    var mapping := ColumnMapping(config, inputHeader);
    var env := Env(mapping, Header(mapping, inputHeader), search, higherTaxa);
    MapRowKeys(mapping, row);
    HeaderColumns(mapping, inputHeader);
    forall c | c in MapRow(mapping, row) ensures c in env.header {
      var i :| 0 <= i < |row| && MapKey(mapping, row[i].0) == c;
      var j :| 0 <= j < |inputHeader| && inputHeader[j] == row[i].0;
      assert env.header[j] == c;
    }
    match LookupKey(env, row)
    case Some(s) =>
      if Resolve(env, s).Some? {
        MergeColumns(search(s).value, higherTaxa);
      }
    case None =>
  }

  /** Every rank that occurs in a hierarchy has a last entry. */
  lemma {:induction false} ExistsLastOfRank(xs: seq<RankEntry>, j: nat)
    requires j < |xs|
    ensures exists k :: LastOfRank(xs, k) && xs[k].rank == xs[j].rank
    decreases |xs| - j
  {
    if !LastOfRank(xs, j) {
      var k :| j < k < |xs| && xs[k].rank == xs[j].rank;
      ExistsLastOfRank(xs, k);
    }
  }

  /** A hierarchy with a Family entry fills `family_name` in the `taicol` record. */
  lemma FamilyInTaicolRecord(namecode: string, hierarchy: seq<RankEntry>, j: nat)
    requires j < |hierarchy| && hierarchy[j].rank == "Family"
    ensures FamilyColumn in TaicolRecord(namecode, hierarchy)
  {
    ExistsLastOfRank(hierarchy, j);
    var k :| LastOfRank(hierarchy, k) && hierarchy[k].rank == "Family";
    RankColumnsListed();
    TaicolRecordColumns(namecode, hierarchy);
  }

  /**
   * A row whose species is decided by a `taicol` entry with a Family rank in its
   * hierarchy carries `family_name`, so the writer refuses it unless the header
   * has that column.
   */
  lemma TaicolFamilyRefused(env: Env, row: Row, i: nat, j: nat)
    requires LookupKey(env, row).Some?
    requires var results := env.search(LookupKey(env, row).value);
      && results.Some? && i < |results.value|
      && results.value[i].source.Taicol? && NoTaicol(results.value[..i])
      && j < |env.higherTaxa(results.value[i].source.acceptedNamecode)|
      && env.higherTaxa(results.value[i].source.acceptedNamecode)[j].rank == "Family"
    requires FamilyColumn !in env.header
    ensures FamilyColumn in ExtraKeys(env.header, RowDict(env, row))
    ensures !Fits(env, row)
  {
    var rs := env.search(LookupKey(env, row).value).value;
    var nc := rs[i].source.acceptedNamecode;
    TaicolShortCircuit(rs, i, env.higherTaxa);
    FamilyInTaicolRecord(nc, env.higherTaxa(nc), j);
    assert FamilyColumn in MergeFrom(map[], rs, env.higherTaxa);
  }

  /** `family_name` is in the run's header only when an input column maps to it: it is not an appended field. */
  lemma FamilyInHeader(mapping: map<string, string>, inputHeader: seq<string>)
    ensures FamilyColumn in Header(mapping, inputHeader) <==> FamilyColumn in MappedHeader(mapping, inputHeader)
  {
    ReconcileHeadersListed();
    MissingFields(MappedHeader(mapping, inputHeader), ReconcileHeaders);
  }

  /** A row that fits the header loses no value: each of its columns is written in its header position. */
  lemma CsvRowLossless(header: seq<string>, d: Record)
    requires ExtraKeys(header, d) == {}
    ensures |CsvRow(header, d)| == |header|
    ensures forall k :: k in d ==> exists i :: 0 <= i < |header| && header[i] == k && CsvRow(header, d)[i] == d[k]
  {
    forall k | k in d ensures exists i :: 0 <= i < |header| && header[i] == k && CsvRow(header, d)[i] == d[k] {
      assert k !in ExtraKeys(header, d);
      var i :| 0 <= i < |header| && header[i] == k;
    }
  }

  // ---------------------------------------------------------------------------
  // A run of rows
  // ---------------------------------------------------------------------------

  /**
   * The names the resolver is called with are the distinct lookup names of the
   * rows, each once: the resolver runs at most once per distinct untrimmed name.
   */
  lemma {:induction false} DistinctSpeciesNames(env: Env, rows: seq<Row>)
    ensures forall s :: s in DistinctSpecies(env, rows) <==> exists i :: 0 <= i < |rows| && LookupKey(env, rows[i]) == Some(s)
    ensures forall i, j :: 0 <= i < j < |DistinctSpecies(env, rows)| ==> DistinctSpecies(env, rows)[i] != DistinctSpecies(env, rows)[j]
    decreases |rows|
  {
    if rows != [] {
      var n := |rows| - 1;
      DistinctSpeciesNames(env, rows[..n]);
      forall i | 0 <= i < n ensures rows[..n][i] == rows[i] { }
    }
  }

  /** One written row per input row, in input order. */
  lemma {:induction false} WrittenRows(env: Env, rows: seq<Row>)
    ensures |Written(env, rows)| == |rows|
    ensures forall i :: 0 <= i < |rows| ==> Written(env, rows)[i] == CsvRow(env.header, RowDict(env, rows[i]))
    decreases |rows|
  {
    if rows != [] {
      var n := |rows| - 1;
      WrittenRows(env, rows[..n]);
      forall i | 0 <= i < n ensures rows[..n][i] == rows[i] { }
    }
  }

  /** The unmatched records are those of the rows reported unmatched, at most one per row. */
  lemma {:induction false} UnmatchedRecordsRows(env: Env, rows: seq<Row>)
    ensures |UnmatchedRecords(env, rows)| <= |rows|
    ensures forall u :: u in UnmatchedRecords(env, rows) <==> exists i :: 0 <= i < |rows| && RowUnmatched(env, rows[i]) == Some(u)
    decreases |rows|
  {
    if rows != [] {
      var n := |rows| - 1;
      UnmatchedRecordsRows(env, rows[..n]);
      forall i | 0 <= i < n ensures rows[..n][i] == rows[i] { }
      var tail := ToSeq(RowUnmatched(env, rows[n]));
      assert UnmatchedRecords(env, rows) == UnmatchedRecords(env, rows[..n]) + tail;
      assert forall u :: u in tail <==> RowUnmatched(env, rows[n]) == Some(u);
    }
  }

  // ---------------------------------------------------------------------------
  // The report path
  // ---------------------------------------------------------------------------

  /** `pat` occurs in `s` at position `i`. */
  predicate OccursAt(s: string, pat: string, i: int)
  {
    0 <= i && i + |pat| <= |s| && s[i..i + |pat|] == pat
  }

  /** A string in which `pat` does not occur is left unchanged. */
  lemma {:induction false} ReplaceAllAbsent(s: string, pat: string, rep: string)
    requires pat != ""
    requires forall i :: !OccursAt(s, pat, i)
    ensures ReplaceAll(s, pat, rep) == s
    decreases |s|
  {
    if |s| >= |pat| {
      assert !OccursAt(s, pat, 0);
      forall i ensures !OccursAt(s[1..], pat, i) {
        if 0 <= i && i + |pat| <= |s[1..]| {
          assert s[1..][i..i + |pat|] == s[i + 1..i + 1 + |pat|];
          assert !OccursAt(s, pat, i + 1);
        }
      }
      ReplaceAllAbsent(s[1..], pat, rep);
    }
  }

  /** When `pat` occurs only as the suffix of `base + pat`, that suffix alone is replaced. */
  lemma {:induction false} ReplaceAllSuffix(base: string, pat: string, rep: string)
    requires pat != ""
    requires forall i :: 0 <= i < |base| ==> !OccursAt(base + pat, pat, i)
    ensures ReplaceAll(base + pat, pat, rep) == base + rep
    decreases |base|
  {
    var s := base + pat;
    if base == [] {
      assert s[..|pat|] == pat && s[|pat|..] == [];
    } else {
      assert !OccursAt(s, pat, 0);
      assert s[1..] == base[1..] + pat;
      forall i | 0 <= i < |base[1..]| ensures !OccursAt(base[1..] + pat, pat, i) {
        assert (base[1..] + pat)[i..i + |pat|] == s[i + 1..i + 1 + |pat|];
        assert !OccursAt(s, pat, i + 1);
      }
      ReplaceAllSuffix(base[1..], pat, rep);
      assert [base[0]] + (base[1..] + rep) == base + rep;
    }
  }

  /** An output path `base.csv` with no other ".csv" gets its report at `base_unmatched.csv`. */
  lemma UnmatchedPathOfCsv(base: string)
    requires forall i :: 0 <= i < |base| ==> !OccursAt(base + ".csv", ".csv", i)
    ensures UnmatchedPath(base + ".csv") == base + "_unmatched.csv"
  {
    ReplaceAllSuffix(base, ".csv", "_unmatched.csv");
  }

  /** An output path without ".csv" is its own report path: the report overwrites the output file. */
  lemma UnmatchedPathWithoutCsv(outputPath: string)
    requires forall i :: !OccursAt(outputPath, ".csv", i)
    ensures UnmatchedPath(outputPath) == outputPath
  {
    ReplaceAllAbsent(outputPath, ".csv", "_unmatched.csv");
  }
}
