/**
 * The row pipeline of `reconcile`: every input row is mapped, its species is
 * resolved through a per-run cache that also remembers "no match", the merged
 * taxonomy overwrites same-named columns, exactly one row is written, and rows
 * whose species found no match are collected for the unmatched report.
 */
module Pipeline {
  import opened Wrappers
  import opened Tables
  import opened Merge
  import opened Fields

  /**
   * What stays fixed during one run: the column mapping, the output header, and
   * the two services (the name-matching search, giving the result list of
   * `.data[0][0].results` for a name, and the higher-taxa lookup by namecode).
   */
  datatype Env = Env(
    mapping: map<string, string>,
    header: seq<string>,
    search: string -> Option<seq<ResultEntry>>,
    higherTaxa: string -> seq<RankEntry>)

  /** The characters `str.strip()` removes (Python's whitespace). */
  predicate IsSpace(c: char)
  {
    || '\t' <= c <= '\r'
    || '\U{1C}' <= c <= '\U{1F}'
    || c == ' ' || c == '\U{85}' || c == '\U{A0}' || c == '\U{1680}'
    || '\U{2000}' <= c <= '\U{200A}'
    || c == '\U{2028}' || c == '\U{2029}' || c == '\U{202F}' || c == '\U{205F}' || c == '\U{3000}'
  }

  /** `s.strip() == ''` */
  predicate IsBlank(s: string)
  {
    forall i :: 0 <= i < |s| ==> IsSpace(s[i])
  }

  /**
   * The outcome for a species name as the row loop sees it: `process_reconcile`'s
   * result when that is a non-empty record, and no match (`None`) both for no
   * result list and for an empty merged record.
   */
  function Resolve(env: Env, species: string): Option<Record>
  {
    match Reconciled(env.search(species), env.higherTaxa)
    case Some(d) => if d == map[] then None else Some(d)
    case None => None
  }

  /** The name a row is looked up under: its untrimmed species value, unless that is missing or blank. */
  function LookupKey(env: Env, row: Row): Option<string>
  {
    match LastValue(env.mapping, row, {SpeciesColumn})
    case Some(s) => if IsBlank(s) then None else Some(s)
    case None => None
  }

  /** `new_dict` as written: the mapped row, overwritten by the merged taxonomy on a match. */
  function RowDict(env: Env, row: Row): Record
  {
    var mapped := MapRow(env.mapping, row);
    match LookupKey(env, row)
    case Some(s) => (match Resolve(env, s) case Some(rec) => mapped + rec case None => mapped)
    case None => mapped
  }

  /** One record of the unmatched report. */
  datatype Unmatched = Unmatched(voucherId: string, unitId: string, speciesName: string, familyName: string)

  /** The unmatched record a row adds: only for a non-blank species with no match. */
  function RowUnmatched(env: Env, row: Row): Option<Unmatched>
  {
    match LookupKey(env, row)
    case Some(s) =>
      if Resolve(env, s).None? then
        Some(Unmatched("", OrEmpty(LastValue(env.mapping, row, UnitColumns)), s,
                       OrEmpty(LastValue(env.mapping, row, {FamilyColumn}))))
      else None
    case None => None
  }

  /** The unmatched records of a sequence of rows, in row order. */
  function UnmatchedRecords(env: Env, rows: seq<Row>): seq<Unmatched>
  {
    if rows == [] then []
    else
      UnmatchedRecords(env, rows[..|rows| - 1]) + ToSeq(RowUnmatched(env, rows[|rows| - 1]))
  }

  /** The columns of `d` outside the header: `csv.DictWriter` raises on a row that has any. */
  function ExtraKeys(header: seq<string>, d: Record): set<string>
  {
    set k | k in d && k !in header
  }

  /** The CSV row `csv.DictWriter` writes for `d`: each header column's value, '' where `d` has none. */
  function CsvRow(header: seq<string>, d: Record): seq<string>
  {
    seq(|header|, i requires 0 <= i < |header| => if header[i] in d then d[header[i]] else "")
  }

  predicate Fits(env: Env, row: Row)
  {
    ExtraKeys(env.header, RowDict(env, row)) == {}
  }

  /** The CSV rows written for a sequence of rows that all fit the header. */
  function Written(env: Env, rows: seq<Row>): seq<seq<string>>
  {
    if rows == [] then []
    else Written(env, rows[..|rows| - 1]) + [CsvRow(env.header, RowDict(env, rows[|rows| - 1]))]
  }

  /** The species names looked up over a sequence of rows: each non-blank name once, at its first row. */
  function DistinctSpecies(env: Env, rows: seq<Row>): seq<string>
  {
    if rows == [] then []
    else AddName(DistinctSpecies(env, rows[..|rows| - 1]), LookupKey(env, rows[|rows| - 1]))
  }

  /** `names` extended by `key` when that is a name not yet in it. */
  function AddName(names: seq<string>, key: Option<string>): seq<string>
  {
    match key
    case Some(s) => if s in names then names else names + [s]
    case None => names
  }

  /** The position of the first row the writer refuses, or the number of rows when it refuses none. */
  function FirstUnfit(env: Env, rows: seq<Row>): (k: nat)
    ensures k <= |rows|
    ensures forall i :: 0 <= i < k ==> Fits(env, rows[i])
    ensures k < |rows| ==> !Fits(env, rows[k])
  {
    if rows == [] then 0
    else if !Fits(env, rows[0]) then 0
    else 1 + FirstUnfit(env, rows[1..])
  }

  /**
   * The state of the row loop: the cache of outcomes by species name, the number
   * of resolver calls, the rows written, the unmatched records, and the error the
   * writer raised, if any (the columns it refused).
   */
  class Reconciler {
    const env: Env
    var cache: map<string, Option<Record>>
    var lookups: nat
    var output: seq<seq<string>>
    var unmatched: seq<Unmatched>
    var error: Option<set<string>>
    /** The rows processed so far and the names the resolver was called with, in order. */
    ghost var seen: seq<Row>
    ghost var calls: seq<string>

    /** The cache holds, for exactly the names looked up so far, each name's outcome. */
    ghost predicate CacheValid()
      reads this
    {
      && lookups == |calls|
      && (forall s :: s in cache <==> s in calls)
      && (forall s :: s in cache ==> cache[s] == Resolve(env, s))
    }

    ghost predicate Valid()
      reads this
    {
      && CacheValid()
      && calls == DistinctSpecies(env, seen)
      && unmatched == UnmatchedRecords(env, seen)
      && |seen| <= FirstUnfit(env, seen) + 1
      && (error.None? <==> FirstUnfit(env, seen) == |seen|)
      && (error.Some? ==> error.value == ExtraKeys(env.header, RowDict(env, seen[|seen| - 1])))
      && output == Written(env, seen[..FirstUnfit(env, seen)])
    }

    constructor (env: Env)
      ensures Valid() && this.env == env && seen == []
      ensures cache == map[] && lookups == 0 && output == [] && unmatched == [] && error == None
    {
      this.env := env;
      cache, lookups, output, unmatched, error := map[], 0, [], [], None;
      seen, calls := [], [];
    }

    /**
     * The cache lookup of one non-blank species name: a name seen before replays
     * its stored outcome with no resolver call; a new name is resolved once and its
     * outcome stored, a no-match included.
     */
    method Lookup(species: string) returns (outcome: Option<Record>)
      requires CacheValid()
      modifies this`cache, this`lookups, this`calls
      ensures CacheValid()
      ensures outcome == Resolve(env, species)
      ensures species in cache && cache == old(cache)[species := outcome]
      ensures calls == if species in old(cache) then old(calls) else old(calls) + [species]
      ensures lookups == old(lookups) + if species in old(cache) then 0 else 1
    {
      if species !in cache {
        var rec := ProcessReconcile(env.search(species), env.higherTaxa);
        lookups := lookups + 1;
        calls := calls + [species];
        if rec.Some? && rec.value != map[] {
          cache := cache[species := rec];
          outcome := rec;
        } else {
          cache := cache[species := None];
          outcome := None;
        }
      } else {
        outcome := cache[species];
      }
    }

    /**
     * The part of one row's iteration before the write: the row is mapped, its
     * species looked up through the cache, the match merged in, and a no-match
     * recorded for the unmatched report.
     */
    method MatchRow(row: Row) returns (newDict: Record)
      requires CacheValid()
      modifies this`cache, this`lookups, this`calls, this`unmatched
      ensures CacheValid() && newDict == RowDict(env, row)
      ensures unmatched == old(unmatched) + ToSeq(RowUnmatched(env, row))
      ensures calls == AddName(old(calls), LookupKey(env, row))
      ensures lookups == old(lookups) + if LookupKey(env, row).Some? && LookupKey(env, row).value !in old(cache) then 1 else 0
    {
      var species, unitId, family;
      newDict, species, unitId, family := ScanRow(env.mapping, row);
      var voucherId: Option<string> := None;  // never assigned: the unmatched report's voucher_id stays ''
      var matched := true;
      if species.Some? && species.value != "" && !IsBlank(species.value) {
        var outcome := Lookup(species.value);
        if outcome.Some? {
          newDict := newDict + outcome.value;
        } else {
          matched := false;
        }
      }
      if !matched && species.Some? && species.value != "" {
        unmatched := unmatched + [Unmatched(OrEmpty(voucherId), OrEmpty(unitId), species.value, OrEmpty(family))];
      }
    }

    /** The row loop: rows are processed in order until the writer raises. */
    method Run(rows: seq<Row>)
      requires Valid() && seen == []
      modifies this
      ensures Valid() && seen == Consumed(env, rows)
    {
      var i := 0;
      while i < |rows| && error.None?
        invariant 0 <= i <= |rows|
        invariant Valid() && seen == rows[..i]
        invariant error.Some? ==> i > 0
      {
        TakeNext(rows, i);
        ProcessRow(rows[i]);
        i := i + 1;
      }
      if error.None? {
        assert rows[..i] == rows;
      } else {
        FirstUnfitOfPrefix(env, rows, i - 1);
      }
    }

    /** One iteration of the row loop: match the row, then write it or raise. */
    method ProcessRow(row: Row)
      requires Valid() && error.None?
      modifies this
      ensures Valid() && seen == old(seen) + [row]
      ensures lookups == old(lookups) + if LookupKey(env, row).Some? && LookupKey(env, row).value !in old(cache) then 1 else 0
      ensures unmatched == old(unmatched) + ToSeq(RowUnmatched(env, row))
      ensures error.None? <==> Fits(env, row)
      ensures output == old(output) + if Fits(env, row) then [CsvRow(env.header, RowDict(env, row))] else []
    {
      var newDict := MatchRow(row);
      SeenGrows(env, seen, row);
      seen := seen + [row];
      var extra := ExtraKeys(env.header, newDict);
      if extra == {} {
        output := output + [CsvRow(env.header, newDict)];
      } else {
        error := Some(extra);
      }
    }
  }

  /** What one more processed row adds to the run's spec functions. */
  lemma SeenGrows(env: Env, rows: seq<Row>, row: Row)
    requires FirstUnfit(env, rows) == |rows|
    ensures (rows + [row])[..|rows|] == rows
    ensures DistinctSpecies(env, rows + [row]) == AddName(DistinctSpecies(env, rows), LookupKey(env, row))
    ensures UnmatchedRecords(env, rows + [row]) ==
      UnmatchedRecords(env, rows) + ToSeq(RowUnmatched(env, row))
    ensures FirstUnfit(env, rows + [row]) == if Fits(env, row) then |rows| + 1 else |rows|
    ensures Written(env, (rows + [row])[..FirstUnfit(env, rows + [row])]) ==
      Written(env, rows[..FirstUnfit(env, rows)]) + if Fits(env, row) then [CsvRow(env.header, RowDict(env, row))] else []
  {
    assert (rows + [row])[..|rows|] == rows;
    assert rows[..|rows|] == rows;
    FirstUnfitExtends(env, rows, row);
    assert (rows + [row])[..|rows| + 1] == rows + [row];
  }

  /** Extending fully written rows by one: the new row is the first refused exactly when it does not fit. */
  lemma {:induction false} FirstUnfitExtends(env: Env, rows: seq<Row>, row: Row)
    requires FirstUnfit(env, rows) == |rows|
    ensures FirstUnfit(env, rows + [row]) == if Fits(env, row) then |rows| + 1 else |rows|
    decreases |rows|
  {
    if rows == [] {
      assert rows + [row] == [row];
    } else {
      assert (rows + [row])[0] == rows[0];
      assert (rows + [row])[1..] == rows[1..] + [row];
      FirstUnfitExtends(env, rows[1..], row);
    }
  }

  /** `output_csv.replace(pat, rep)`: every occurrence of `pat`, scanning left to right, replaced. */
  function ReplaceAll(s: string, pat: string, rep: string): string
    requires pat != ""
    decreases |s|
  {
    if |s| < |pat| then s
    else if s[..|pat|] == pat then rep + ReplaceAll(s[|pat|..], pat, rep)
    else [s[0]] + ReplaceAll(s[1..], pat, rep)
  }

  /** The path of the unmatched report. */
  function UnmatchedPath(outputPath: string): string
  {
    ReplaceAll(outputPath, ".csv", "_unmatched.csv")
  }

  /** The unmatched report: where it goes and what it holds. */
  datatype Report = Report(path: string, records: seq<Unmatched>)

  /**
   * The outcome of one run: the header, the CSV rows written, the number of
   * resolver calls, the unmatched report if one is written, and the columns the
   * writer refused if it raised (the run then stops and writes no report).
   */
  datatype RunResult = RunResult(
    header: seq<string>,
    rows: seq<seq<string>>,
    lookups: nat,
    report: Option<Report>,
    error: Option<set<string>>)

  /** `reconcile`, with the INI `[fields]` section, the CSV rows and the two services as inputs. */
  method Reconcile(config: IniConfig, inputHeader: seq<string>, rows: seq<Row>, outputPath: string,
                   search: string -> Option<seq<ResultEntry>>, higherTaxa: string -> seq<RankEntry>)
    returns (result: RunResult)
    ensures var mapping := ColumnMapping(config, inputHeader);
      var env := Env(mapping, Header(mapping, inputHeader), search, higherTaxa);
      var k := FirstUnfit(env, rows);
      && result.header == env.header
      && result.rows == Written(env, rows[..k])
      && result.lookups == |DistinctSpecies(env, Consumed(env, rows))|
      && result.error == (if k < |rows| then Some(ExtraKeys(env.header, RowDict(env, rows[k]))) else None)
      && result.report == (if k == |rows| && UnmatchedRecords(env, rows) != []
                           then Some(Report(UnmatchedPath(outputPath), UnmatchedRecords(env, rows)))
                           else None)
  {
    var mapping := BuildMapping(config, inputHeader);
    var header := BuildHeader(mapping, inputHeader);
    var env := Env(mapping, header, search, higherTaxa);
    var r := new Reconciler(env);
    r.Run(rows);
    ConsumedRows(env, rows);
    var report: Option<Report> := None;
    if r.error.None? && r.unmatched != [] {
      report := Some(Report(UnmatchedPath(outputPath), r.unmatched));
    }
    result := RunResult(header, r.output, r.lookups, report, r.error);
  }

  /** The rows the loop takes in: all of them, or those up to and including the first refused one. */
  function Consumed(env: Env, rows: seq<Row>): seq<Row>
  {
    var k := FirstUnfit(env, rows);
    if k < |rows| then rows[..k + 1] else rows
  }

  lemma ConsumedRows(env: Env, rows: seq<Row>)
    ensures var k, c := FirstUnfit(env, rows), Consumed(env, rows);
      && |c| == (if k < |rows| then k + 1 else k)
      && FirstUnfit(env, c) == k
      && c[..k] == rows[..k]
      && (k < |rows| ==> c[k] == rows[k])
  {
    var k := FirstUnfit(env, rows);
    if k < |rows| {
      FirstUnfitPrefix(env, rows, k + 1);
    } else {
      assert rows[..k] == rows;
    }
  }

  /** A prefix that reaches past the first refused row has the same first refused row. */
  lemma {:induction false} FirstUnfitPrefix(env: Env, rows: seq<Row>, n: nat)
    requires FirstUnfit(env, rows) < n <= |rows|
    ensures FirstUnfit(env, rows[..n]) == FirstUnfit(env, rows)
    decreases n
  {
    assert rows[..n][0] == rows[0];
    if Fits(env, rows[0]) {
      assert rows[..n][1..] == rows[1..][..n - 1];
      FirstUnfitPrefix(env, rows[1..], n - 1);
    }
  }

  /** Proof helper: a prefix one longer adds the next element. */
  lemma TakeNext<T>(s: seq<T>, i: nat)
    requires i < |s|
    ensures s[..i + 1] == s[..i] + [s[i]]
  {
  }

  /** The first refused row of a prefix that ends with a refused row is the first refused row of all. */
  lemma {:induction false} FirstUnfitOfPrefix(env: Env, rows: seq<Row>, k: nat)
    requires k < |rows| && FirstUnfit(env, rows[..k + 1]) == k
    ensures FirstUnfit(env, rows) == k
    decreases k
  {
    if k > 0 {
      assert rows[..k + 1][0] == rows[0];
      assert rows[..k + 1][1..] == rows[1..][..k];
      FirstUnfitOfPrefix(env, rows[1..], k - 1);
    } else {
      assert rows[..1][0] == rows[0];
    }
  }
}
