# taxonomy-reconcile, modelled in Dafny

`reconcile.py` enriches a CSV of specimen records with taxonomy. For each row it
renames the columns through an optional INI `[fields]` section. It then looks up
the row's `species_name` with a name-matching service and merges the service's
answer into the row: higher taxa, Chinese common names and provenance. It writes
one output row per input row, in order, until the CSV writer refuses a row (see
below). Rows whose species found no match go into a separate "unmatched" report,
written only when the run completes.

This project models the two parts of that engine and proves what they promise:

- **The result merger** `process_reconcile` (`merge.dfy`). The service's result
  list for a name is folded, in order, into one flat record:
  - `col` and `gbif` entries copy the keys `RECONCILE_MAP` knows, later entries
    overwriting earlier ones;
  - the first `taicol` entry sets `__namecode` and `__source`, copies its
    higher-taxa hierarchy through `RECONCILE_MAP2`, and ends the fold;
  - entries with any other source tag are skipped.

  The source tag is a closed datatype. The two HTTP calls are inputs: the result
  list, which may be absent, and a function from a namecode to its hierarchy. The
  imperative loop with its `break` (`Merge.ProcessReconcile`) is proved equal to
  the specification fold `Merge.MergeFrom`. The fold's properties are proved as
  lemmas.
- **The row pipeline** `reconcile` (`tables.dfy`, `fields.dfy`, `pipeline.dfy`,
  `properties.dfy`):
  - the column mapping and the output header;
  - the per-row column scan;
  - the per-run cache, which also remembers "no match";
  - the unmatched records;
  - the writer's "keys must be in the header" rule;
  - the report path.

  The loop state is the class `Pipeline.Reconciler`. It holds the cache
  (`map<string, Option<map<string,string>>>`), the resolver-call counter, the
  written rows, the unmatched records and the writer's error. Its invariant ties
  each field to a specification function of the rows processed so far.

The model keeps three behaviours of the source exactly as written:

- `voucher_id` is tracked into the same variable as `unit_id`, and the unmatched
  record's `voucher_id` is always `''`.
- The cache key is the species value as read, not trimmed, although blankness is
  tested on the trimmed value.
- For a Family rank, the `taicol` branch writes `family_name`, and that column is
  not among the appended header fields. `csv.DictWriter` then raises unless the
  input already has that column. The model makes this an explicit failure
  outcome: `RunResult.error` holds the refused columns, and the run stops at that
  row with no unmatched report.

`__namecode` is not a `taicol`-only column. `RECONCILE_MAP` maps `namecode` to
it (reconcile.py:16), so a `col` or `gbif` entry that carries a `namecode` key
fills `__namecode` as well (reconcile.py:63-69), and the model does the same.

## Model

| member | source | states |
|---|---|---|
| Tables.GetFinds | reconcile.py:57-64 | a key is found in a lookup table exactly when some entry has it, and the value found is that entry's value |
| Tables.ReconcileHeadersListed | reconcile.py:113 | the appended header fields are the seven `RECONCILE_MAP` values then the six `RECONCILE_MAP2` values, in table order |
| Tables.RankColumnsListed | reconcile.py:18-60 | each of the six ranks is recognized and fills its `_zh` column and its `rank.lower() + '_name'` column |
| Tables.RankNames | reconcile.py:18-25 | only the six capitalized rank names are recognized |
| Tables.RankColumns | reconcile.py:57-60 | a recognized rank's `_zh` column is a header field; its `_name` column is a header field exactly when the rank is not Family; neither is a provenance column |
| Tables.RankColumnsDistinct | reconcile.py:57-60 | different ranks fill different columns |
| Merge.ProcessReconcile | reconcile.py:48-77 | the loop, with its `break` at the first `taicol` entry, returns exactly the specification fold: `None` for an absent or empty result list, else the merged record |
| Merge.CopyItemsOverlay | reconcile.py:62-69 | copying an entry onto a record overwrites only the columns the entry maps |
| Merge.CopyItemsColumns | reconcile.py:62-69 | a `col`/`gbif` entry sets exactly the columns of its `RECONCILE_MAP` keys, each from the last of its pairs that maps there |
| Merge.ApplyRanksOverlay | reconcile.py:56-60 | the hierarchy overwrites only the columns it fills |
| Merge.ApplyRanksKeys | reconcile.py:56-60 | the hierarchy fills only the two columns of each recognized rank it carries |
| Merge.ApplyRanksLastOfRank | reconcile.py:56-60 | each recognized rank's `_zh` column holds `common_name_c`, and its `_name` column holds `simple_name`, of the last hierarchy entry of that rank |
| Merge.TaicolStep | reconcile.py:51-60 | the `taicol` branch overlays the entry's own record on what was merged before it |
| Merge.MergeOverlay | reconcile.py:50-69 | merging onto a record overlays the merge of the same entries onto nothing |
| Merge.MergeAppend | reconcile.py:50-69 | when no `taicol` entry comes first, merging `pre + post` overlays `post`'s record on `pre`'s: later entries win on collisions |
| Merge.TaicolShortCircuit | reconcile.py:51-61 | the first `taicol` entry gives the record of the entries before it, overlaid with its own record; no later entry is examined |
| Merge.TaicolRecordColumns | reconcile.py:52-60 | the `taicol` record has `__source` = "taicol", `__namecode` = the accepted namecode, and the rank columns of its hierarchy, and nothing else |
| Merge.OtherIgnored | reconcile.py:50-69 | an entry with any other source tag changes nothing, wherever it stands |
| Merge.MergeEmptyIffAllOther | reconcile.py:50-71 | the merged record is empty exactly when no entry is tagged `taicol`, `col` or `gbif` |
| Merge.TaicolRecordInHeaders | reconcile.py:52-60 | a `taicol` record fills only header fields and `family_name` |
| Merge.CopyItemsInHeaders | reconcile.py:62-69 | a `col`/`gbif` entry fills only header fields |
| Merge.MergeColumns | reconcile.py:50-71 | every merged column is one of the thirteen appended header fields, or `family_name` |
| Fields.BuildMapping | reconcile.py:91-108 | the mapping built one assignment at a time is the identity over the input columns without an INI file, empty without a `[fields]` section, and else value -> key |
| Fields.InvertedRenames | reconcile.py:102-104 | a `[fields]` entry renames the column named by its value to its key; the last entry for a value wins |
| Fields.IdentityMapping | reconcile.py:105-108 | without an INI file, or without a `[fields]` section, every column keeps its name |
| Fields.MissingFields | reconcile.py:114-116 | the appended fields are exactly the reconcile fields not already in the mapped header |
| Fields.ReconcileHeadersDistinct | reconcile.py:113 | the thirteen appended fields are pairwise distinct |
| Fields.MissingInOrder | reconcile.py:113-116 | the appended fields come in the order of the reconcile fields: each sits at a position of that list, and the positions strictly increase |
| Fields.HeaderColumns | reconcile.py:110-116 | the header starts with the mapped input columns in input order, continues with the reconcile fields not among them in their listed order, and contains every reconcile field |
| Fields.BuildHeader | reconcile.py:110-116 | the header built by appending each absent field is that header |
| Fields.ScanRow | reconcile.py:134-147 | the column loop yields the mapped row, and the value of the last column mapped to `species_name`, to `unit_id` or `voucher_id`, and to `family_name` |
| Fields.LastValueIsLast | reconcile.py:134-147 | a tracked value is the value of the last column mapped to a tracked name, and is absent exactly when no column maps there |
| Fields.LastValueInMappedRow | reconcile.py:134-147 | the tracked species and family are the values the mapped row holds under those names: a later column mapped to the same name overwrites an earlier one |
| Pipeline.FirstUnfit | reconcile.py:175 | the rows before the first refused row fit the header, and that row does not |
| Pipeline.Reconciler.constructor | reconcile.py:121-122 | the run starts with an empty cache, no lookups, no rows written and no unmatched records |
| Pipeline.Reconciler.Lookup | reconcile.py:151-164 | a name already in the cache replays its stored outcome with no resolver call; a new name is resolved once and its outcome stored, a no-match as `None` |
| Pipeline.Reconciler.MatchRow | reconcile.py:127-173 | the row's dict is the mapped row overwritten by the match; an unmatched record is appended exactly for a non-blank, unmatched species; the resolver is called only for a name not yet cached |
| Pipeline.Reconciler.ProcessRow | reconcile.py:123-175 | one iteration keeps the loop invariant; it writes the row exactly when its keys fit the header, and otherwise records the refused columns as the error |
| Pipeline.Reconciler.Run | reconcile.py:123-175 | the loop processes rows in order and stops at the first row the writer refuses |
| Pipeline.Reconcile | reconcile.py:80-196 | a run writes the header, then one CSV row per input row up to the first refused row. The resolver is called once per distinct lookup name of the rows read. The error is the refused columns. The report holds the unmatched records and is written only when the run did not fail and there is at least one record |
| Pipeline.FirstUnfitExtends | reconcile.py:175 | after fully written rows, one more row is refused exactly when it does not fit |
| Pipeline.FirstUnfitPrefix | reconcile.py:175 | reading stops at the same refused row whatever rows follow it |
| RunProperties.LookupKeyIsSpecies | reconcile.py:144-151 | a row is looked up under its `species_name` value untrimmed, only when that value is present and not blank after stripping |
| RunProperties.BlankSpecies | reconcile.py:150-167 | a row with a missing, empty or whitespace-only species causes no lookup, is never reported unmatched, and is written as mapped |
| RunProperties.NoMatch | reconcile.py:49-77 | a name finds no match exactly when there is no result list, or no entry in it is tagged `taicol`, `col` or `gbif` (an empty merged record counts as no match) |
| RunProperties.MatchedRow | reconcile.py:150-164 | on a match, the merged columns overwrite same-named columns of the row, and the other columns stay |
| RunProperties.UnmatchedRecord | reconcile.py:140-173 | a row is reported exactly when its species is non-blank and unmatched. Its record has `voucher_id` `''`, the last `unit_id`/`voucher_id` value, the untrimmed species, and the `family_name` value or `''` |
| RunProperties.MapRowKeys | reconcile.py:134-137 | the mapped row's columns are the mapped names of the row's columns |
| RunProperties.RefusedOnlyFamily | reconcile.py:110-175 | with the header the run builds, `family_name` is the only column the writer can refuse |
| RunProperties.ExistsLastOfRank | reconcile.py:56-60 | every rank in a hierarchy has a last entry, which decides its columns |
| RunProperties.FamilyInTaicolRecord | reconcile.py:57-60 | a hierarchy with a Family entry sets `family_name` |
| RunProperties.TaicolFamilyRefused | reconcile.py:51-61 | a row decided by a `taicol` entry whose hierarchy has a Family rank is refused when the header lacks `family_name` |
| RunProperties.FamilyInHeader | reconcile.py:110-116 | `family_name` is in the header only when an input column maps to it |
| RunProperties.CsvRowLossless | reconcile.py:175 | a row that fits the header is written with each of its values in its column's position |
| RunProperties.DistinctSpeciesNames | reconcile.py:150-158 | the resolver calls are the distinct lookup names of the rows, each once |
| RunProperties.WrittenRows | reconcile.py:123-175 | one written row per input row, in input order, each the row's final dict |
| RunProperties.UnmatchedRecordsRows | reconcile.py:167-173 | the unmatched records are those of the rows reported unmatched, at most one per row |
| RunProperties.ReplaceAllAbsent | reconcile.py:189 | a path with no ".csv" is left unchanged by the replace |
| RunProperties.ReplaceAllSuffix | reconcile.py:189 | when the pattern occurs only as a suffix, only that suffix is replaced |
| RunProperties.UnmatchedPathOfCsv | reconcile.py:189 | `base.csv` with no other ".csv" in it gets its report at `base_unmatched.csv` |
| RunProperties.UnmatchedPathWithoutCsv | reconcile.py:189 | an output path without ".csv" is its own report path, so the report overwrites the output |

## Left out

- HTTP and JSON: the two `requests.get` calls, `.json()`, the `jq` extraction and the URLs are not modelled. The result list and the higher-taxa lookup are inputs of the model (`Env.search`, `Env.higherTaxa`).
- Malformed service responses are not representable, and the `KeyError`s they raise are not modelled. These are: a result entry without `source` (reconcile.py:51); a `taicol` entry without `accepted_namecode` (reconcile.py:52); a higher-taxa response without `data` (reconcile.py:56); a hierarchy entry without `rank` (reconcile.py:57); and a hierarchy entry of one of the six recognised ranks that lacks `common_name_c` or `simple_name` (reconcile.py:58-60). A hierarchy entry of any other rank is skipped whatever keys it has, in the source and in the model (`Merge.ApplyRank`). Response values are modelled as strings.
- INI loading is not modelled: the multi-encoding `configparser` read loop, and `configparser`'s lower-casing of option names. The `[fields]` section is an input: present or absent, with its (key, value) pairs in order.
- CSV and file mechanics are not modelled: opening and closing files, and `DictReader`'s handling of short or long rows (`None` values and the `None` key). A row is a sequence of (column, value) string pairs. The output is the header plus a list of rows. The only writer rule carried over is that every key must be in the header.
- Logging and the statistics lines are not modelled, nor the matched count. With statistics on, the match-rate line divides by the cache size, which is zero when no row had a non-blank species. In that case no unmatched record exists either, so the report is unaffected.
- Argument parsing, logging setup, file-existence checks and the input/output path precedence are not modelled. They are command-line plumbing around `reconcile`.
- Tables.Lower: lower-cases ASCII letters only, which agrees with `str.lower` on the six rank names that reach it.
- Pipeline.Reconcile: when the writer raises, the rows written before the failure are given as written. Whether they reach the file depends on buffering and on the output file never being closed, and this is not modelled. The input header is always a sequence of column names. An input file with no header line at all makes `reader.fieldnames` `None`, and the source then raises `TypeError` at reconcile.py:107 (no INI file) or reconcile.py:110 before any header is written. That failure is not represented: on an empty header the model writes a header of the thirteen appended fields.
- Merge.ResultEntry: the entry's `items` are meant to be its keys other than `source`, but the type does not exclude a `source` pair there. Such a pair cannot come from a JSON object, and in the model it would overwrite `__source`.
