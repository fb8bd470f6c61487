/**
 * The result merger of `process_reconcile`: the name-matching service's result
 * list for one species name is folded, in order, into one flat record.  The two
 * HTTP calls are inputs: the result list taken from `.data[0][0].results` (absent
 * or present) and the higher-taxa lookup, a function from a namecode to the rank
 * hierarchy the second service returns for it.
 */
module Merge {
  import opened Wrappers
  import opened Tables

  /** A `source` tag that none of the merge branches recognises. */
  type OtherTag = t: string | t != "taicol" && t != "col" && t != "gbif" witness ""

  /**
   * The `source` tag of a result entry, as a closed variant.  A `taicol` entry
   * carries the `accepted_namecode` its branch reads; `Other` carries any tag
   * other than "taicol", "col" and "gbif", so each tag has exactly one variant.
   */
  datatype Source = Taicol(acceptedNamecode: string) | Col | Gbif | Other(tag: OtherTag)

  /** The `source` value the service sent for an entry. */
  function Tag(s: Source): string
  {
    match s
    case Taicol(_) => "taicol"
    case Col => "col"
    case Gbif => "gbif"
    case Other(t) => t
  }

  /**
   * One result entry: its source and its other key/value pairs, in the order the
   * service sent them.  `items` stands for the keys of a JSON object other than
   * `source`, so it is expected to hold no `source` key; the model does not
   * enforce this, and a second `source` pair would overwrite `__source`.
   */
  datatype ResultEntry = ResultEntry(source: Source, items: seq<(string, string)>)

  /** One entry of the higher-taxa hierarchy: `rank`, `simple_name` and `common_name_c`. */
  datatype RankEntry = RankEntry(rank: string, simpleName: string, commonName: string)

  /** What `res.items()` yields: the `source` pair together with the entry's other pairs. */
  function RawItems(e: ResultEntry): seq<(string, string)>
  {
    [("source", Tag(e.source))] + e.items
  }

  /** `if mapped_key := RECONCILE_MAP.get(k): data[mapped_key] = v` */
  function CopyItem(data: Record, item: (string, string)): Record
  {
    match Get(ReconcileMap, item.0)
    case Some(column) => data[column := item.1]
    case None => data
  }

  /** The `col`/`gbif` branch: every pair of the entry, in order, through CopyItem. */
  function CopyItems(data: Record, items: seq<(string, string)>): Record
    decreases |items|
  {
    if items == [] then data else CopyItems(CopyItem(data, items[0]), items[1..])
  }

  /** One hierarchy entry of the `taicol` branch. */
  function ApplyRank(data: Record, x: RankEntry): Record
  {
    if IsRank(x.rank) then data[ZhColumn(x.rank) := x.commonName][NameColumn(x.rank) := x.simpleName]
    else data
  }

  /** The whole hierarchy of the `taicol` branch, in order. */
  function ApplyRanks(data: Record, xs: seq<RankEntry>): Record
    decreases |xs|
  {
    if xs == [] then data else ApplyRanks(ApplyRank(data, xs[0]), xs[1..])
  }

  /**
   * The fold of the result list into `data`: `col` and `gbif` entries copy their
   * mapped pairs and the fold goes on; an entry with any other tag is skipped; the
   * first `taicol` entry sets the provenance columns, applies its hierarchy and
   * ends the fold.
   */
  function MergeFrom(data: Record, results: seq<ResultEntry>, higherTaxa: string -> seq<RankEntry>): Record
    decreases |results|
  {
    if results == [] then data
    else
      match results[0].source
      case Taicol(namecode) =>
        ApplyRanks(data[NamecodeColumn := namecode][SourceColumn := "taicol"], higherTaxa(namecode))
      case Col | Gbif => MergeFrom(CopyItems(data, RawItems(results[0])), results[1..], higherTaxa)
      case Other(_) => MergeFrom(data, results[1..], higherTaxa)
  }

  /** What `process_reconcile` returns: `None` for an absent or empty result list, else the merged record. */
  function Reconciled(results: Option<seq<ResultEntry>>, higherTaxa: string -> seq<RankEntry>): Option<Record>
  {
    if results.Some? && results.value != [] then Some(MergeFrom(map[], results.value, higherTaxa)) else None
  }

  /** `process_reconcile`, with the two service responses as inputs. */
  method ProcessReconcile(results: Option<seq<ResultEntry>>, higherTaxa: string -> seq<RankEntry>)
    returns (r: Option<Record>)
    ensures r == Reconciled(results, higherTaxa)
  {
    var data: Record := map[];
    if results.Some? && results.value != [] {
      var rs := results.value;
      var i := 0;
      while i < |rs|
        invariant 0 <= i <= |rs|
        invariant MergeFrom(data, rs[i..], higherTaxa) == MergeFrom(map[], rs, higherTaxa)
      {
        var res := rs[i];
        assert rs[i..][1..] == rs[i + 1..];
        match res.source {
          case Taicol(namecode) =>
            data := data[NamecodeColumn := namecode];
            data := data[SourceColumn := Tag(res.source)];
            var hierarchy := higherTaxa(namecode);
            var j := 0;
            while j < |hierarchy|
              invariant 0 <= j <= |hierarchy|
              invariant ApplyRanks(data, hierarchy[j..]) == MergeFrom(map[], rs, higherTaxa)
            {
              var x := hierarchy[j];
              if IsRank(x.rank) {
                data := data[ZhColumn(x.rank) := x.commonName];
                var key := Lower(x.rank) + "_name";
                data := data[key := x.simpleName];
              }
              assert hierarchy[j..][1..] == hierarchy[j + 1..];
              j := j + 1;
            }
            assert hierarchy[j..] == [];
            break;
          case Col | Gbif =>
            var items := RawItems(res);
            var j := 0;
            while j < |items|
              invariant 0 <= j <= |items|
              invariant MergeFrom(CopyItems(data, items[j..]), rs[i + 1..], higherTaxa) == MergeFrom(map[], rs, higherTaxa)
            {
              var mapped := Get(ReconcileMap, items[j].0);
              if mapped.Some? {
                data := data[mapped.value := items[j].1];
              }
              assert items[j..][1..] == items[j + 1..];
              j := j + 1;
            }
            assert items[j..] == [];
          case Other(_) =>
        }
        i := i + 1;
      }
      r := Some(data);
    } else {
      r := None;
    }
  }

  // ---------------------------------------------------------------------------
  // Properties of the merge
  // ---------------------------------------------------------------------------

  /** The record contributed by the first `taicol` entry: its provenance columns and its hierarchy. */
  function TaicolRecord(namecode: string, hierarchy: seq<RankEntry>): Record
  {
    ApplyRanks(map[NamecodeColumn := namecode, SourceColumn := "taicol"], hierarchy)
  }

  predicate NoTaicol(results: seq<ResultEntry>)
  {
    forall i :: 0 <= i < |results| ==> !results[i].source.Taicol?
  }

  /** Copying onto a record overlays the entry's own copy on it: what the entry copies overwrites. */
  lemma {:induction false} CopyItemsOverlay(d: Record, e: Record, items: seq<(string, string)>)
    ensures CopyItems(d + e, items) == d + CopyItems(e, items)
    decreases |items|
  {
    if items != [] {
      assert CopyItem(d + e, items[0]) == d + CopyItem(e, items[0]);
      CopyItemsOverlay(d, CopyItem(e, items[0]), items[1..]);
    }
  }

  /**
   * A `col`/`gbif` entry copies exactly those of its pairs whose key RECONCILE_MAP
   * knows, under the mapped column, each column from the last pair that maps to it.
   */
  lemma {:induction false} CopyItemsColumns(items: seq<(string, string)>)
    ensures forall c :: c in CopyItems(map[], items) <==>
      exists i :: 0 <= i < |items| && Get(ReconcileMap, items[i].0) == Some(c)
    ensures forall c :: c in CopyItems(map[], items) ==>
      exists i :: 0 <= i < |items| && Get(ReconcileMap, items[i].0) == Some(c)
        && CopyItems(map[], items)[c] == items[i].1
        && forall j :: i < j < |items| ==> Get(ReconcileMap, items[j].0) != Some(c)
    decreases |items|
  {
    if items != [] {
      var rest := items[1..];
      var first := CopyItem(map[], items[0]);
      CopyItemsColumns(rest);
      assert first + map[] == first;
      CopyItemsOverlay(first, map[], rest);
      forall c ensures c in CopyItems(map[], items) <==>
        exists i :: 0 <= i < |items| && Get(ReconcileMap, items[i].0) == Some(c)
      {
        if c in CopyItems(map[], items) && c !in CopyItems(map[], rest) {
          assert Get(ReconcileMap, items[0].0) == Some(c);
        }
        if exists i :: 0 <= i < |items| && Get(ReconcileMap, items[i].0) == Some(c) {
          var i :| 0 <= i < |items| && Get(ReconcileMap, items[i].0) == Some(c);
          if i > 0 {
            assert Get(ReconcileMap, rest[i - 1].0) == Some(c);
          }
        }
      }
      forall c | c in CopyItems(map[], items)
        ensures exists i :: (0 <= i < |items| && Get(ReconcileMap, items[i].0) == Some(c)
          && CopyItems(map[], items)[c] == items[i].1
          && forall j :: i < j < |items| ==> Get(ReconcileMap, items[j].0) != Some(c))
      {
        if c in CopyItems(map[], rest) {
          var i :| 0 <= i < |rest| && Get(ReconcileMap, rest[i].0) == Some(c)
            && CopyItems(map[], rest)[c] == rest[i].1
            && forall j :: i < j < |rest| ==> Get(ReconcileMap, rest[j].0) != Some(c);
          assert items[i + 1] == rest[i];
          forall j | i + 1 < j < |items| ensures Get(ReconcileMap, items[j].0) != Some(c) {
            assert items[j] == rest[j - 1];
          }
        } else {
          forall j | 0 < j < |items| ensures Get(ReconcileMap, items[j].0) != Some(c) {
            assert items[j] == rest[j - 1];
          }
        }
      }
    }
  }

  /** Applying a hierarchy onto a record overlays the hierarchy's own columns on it. */
  lemma {:induction false} ApplyRanksOverlay(d: Record, e: Record, xs: seq<RankEntry>)
    ensures ApplyRanks(d + e, xs) == d + ApplyRanks(e, xs)
    decreases |xs|
  {
    if xs != [] {
      assert ApplyRank(d + e, xs[0]) == d + ApplyRank(e, xs[0]);
      ApplyRanksOverlay(d, ApplyRank(e, xs[0]), xs[1..]);
    }
  }

  /** Hierarchy entry `x` fills column `c`. */
  predicate FillsRankColumn(x: RankEntry, c: string)
  {
    IsRank(x.rank) && (c == ZhColumn(x.rank) || c == NameColumn(x.rank))
  }

  /** No entry after position `i` has the rank of entry `i`. */
  predicate LastOfRank(xs: seq<RankEntry>, i: int)
  {
    0 <= i < |xs| && forall j :: i < j < |xs| ==> xs[j].rank != xs[i].rank
  }

  /** The hierarchy fills only the columns of the recognized ranks it carries. */
  lemma {:induction false} ApplyRanksKeys(xs: seq<RankEntry>)
    ensures forall c :: c in ApplyRanks(map[], xs) ==> exists i :: 0 <= i < |xs| && FillsRankColumn(xs[i], c)
    decreases |xs|
  {
    if xs != [] {
      var rest := xs[1..];
      var first := ApplyRank(map[], xs[0]);
      ApplyRanksKeys(rest);
      assert first + map[] == first;
      ApplyRanksOverlay(first, map[], rest);
      forall c | c in ApplyRanks(map[], xs) ensures exists i :: 0 <= i < |xs| && FillsRankColumn(xs[i], c) {
        if c in ApplyRanks(map[], rest) {
          var i :| 0 <= i < |rest| && FillsRankColumn(rest[i], c);
          assert xs[i + 1] == rest[i];
        } else {
          assert FillsRankColumn(xs[0], c);
        }
      }
    }
  }

  /**
   * For a recognized rank, its localized column holds the `common_name_c` and its
   * scientific-name column the `simple_name` of the last hierarchy entry of that rank.
   */
  lemma {:induction false} ApplyRanksLastOfRank(xs: seq<RankEntry>, i: int)
    requires LastOfRank(xs, i) && IsRank(xs[i].rank)
    ensures ZhColumn(xs[i].rank) in ApplyRanks(map[], xs)
    ensures ApplyRanks(map[], xs)[ZhColumn(xs[i].rank)] == xs[i].commonName
    ensures NameColumn(xs[i].rank) in ApplyRanks(map[], xs)
    ensures ApplyRanks(map[], xs)[NameColumn(xs[i].rank)] == xs[i].simpleName
    decreases |xs|
  {
    var rest := xs[1..];
    var first := ApplyRank(map[], xs[0]);
    var r := xs[i].rank;
    assert first + map[] == first;
    ApplyRanksOverlay(first, map[], rest);
    if i > 0 {
      assert rest[i - 1] == xs[i];
      assert LastOfRank(rest, i - 1) by {
        forall j | i - 1 < j < |rest| ensures rest[j].rank != r {
          assert rest[j] == xs[j + 1];
        }
      }
      ApplyRanksLastOfRank(rest, i - 1);
    } else {
      RankColumns(r);
      ApplyRanksKeys(rest);
      forall c | c in ApplyRanks(map[], rest) ensures c != ZhColumn(r) && c != NameColumn(r) {
        var k :| 0 <= k < |rest| && FillsRankColumn(rest[k], c);
        assert rest[k] == xs[k + 1];
        RankColumnsDistinct(rest[k].rank, r);
        RankColumnsDistinct(r, rest[k].rank);
      }
    }
  }

  /** The `taicol` branch run on a record overlays the entry's own record on it. */
  lemma TaicolStep(d: Record, namecode: string, hierarchy: seq<RankEntry>)
    ensures ApplyRanks(d[NamecodeColumn := namecode][SourceColumn := "taicol"], hierarchy)
         == d + TaicolRecord(namecode, hierarchy)
  {
    var base := map[NamecodeColumn := namecode, SourceColumn := "taicol"];
    assert d[NamecodeColumn := namecode][SourceColumn := "taicol"] == d + base;
    ApplyRanksOverlay(d, base, hierarchy);
  }

  /** Proof helper: overlaying nothing leaves a record as it is. */
  lemma OverlayEmpty(d: Record)
    ensures d + map[] == d
  {
  }

  /** Proof helper: overlaying records is associative. */
  lemma OverlayAssoc(a: Record, b: Record, c: Record)
    ensures (a + b) + c == a + (b + c)
  {
  }

  /** Merging onto a record overlays the merge of the same entries onto nothing. */
  lemma {:induction false} MergeOverlay(d: Record, results: seq<ResultEntry>, higherTaxa: string -> seq<RankEntry>)
    ensures MergeFrom(d, results, higherTaxa) == d + MergeFrom(map[], results, higherTaxa)
    decreases |results|
  {
    if results != [] {
      match results[0].source
      case Taicol(nc) =>
        TaicolStep(d, nc, higherTaxa(nc));
        TaicolStep(map[], nc, higherTaxa(nc));
      case Col | Gbif =>
        var raw := RawItems(results[0]);
        var c := CopyItems(map[], raw);
        OverlayEmpty(d);
        CopyItemsOverlay(d, map[], raw);
        MergeOverlay(CopyItems(d, raw), results[1..], higherTaxa);
        MergeOverlay(c, results[1..], higherTaxa);
        OverlayAssoc(d, c, MergeFrom(map[], results[1..], higherTaxa));
      case Other(_) =>
        MergeOverlay(d, results[1..], higherTaxa);
    }
  }

  /**
   * Entries are merged in order with later ones winning: when no `taicol` entry
   * comes first, merging `pre + post` overlays the record of `post` on that of `pre`.
   */
  lemma {:induction false} MergeAppend(pre: seq<ResultEntry>, post: seq<ResultEntry>, higherTaxa: string -> seq<RankEntry>)
    requires NoTaicol(pre)
    ensures MergeFrom(map[], pre + post, higherTaxa)
         == MergeFrom(map[], pre, higherTaxa) + MergeFrom(map[], post, higherTaxa)
    decreases |pre|
  {
    if pre == [] {
      assert pre + post == post;
      assert map[] + MergeFrom(map[], post, higherTaxa) == MergeFrom(map[], post, higherTaxa);
    } else {
      assert (pre + post)[0] == pre[0];
      assert (pre + post)[1..] == pre[1..] + post;
      assert NoTaicol(pre[1..]) by {
        forall i | 0 <= i < |pre[1..]| ensures !pre[1..][i].source.Taicol? {
          assert pre[1..][i] == pre[i + 1];
        }
      }
      MergeAppend(pre[1..], post, higherTaxa);
      assert !pre[0].source.Taicol?;
      if !pre[0].source.Other? {
        var c := CopyItems(map[], RawItems(pre[0]));
        MergeOverlay(c, pre[1..] + post, higherTaxa);
        MergeOverlay(c, pre[1..], higherTaxa);
        OverlayAssoc(c, MergeFrom(map[], pre[1..], higherTaxa), MergeFrom(map[], post, higherTaxa));
      }
    }
  }

  /**
   * The first `taicol` entry decides the rest of the merge: the result is the
   * record of the entries before it overlaid with its own record, and no later
   * entry is examined.
   */
  lemma {:induction false} TaicolShortCircuit(results: seq<ResultEntry>, i: nat, higherTaxa: string -> seq<RankEntry>)
    requires i < |results| && results[i].source.Taicol? && NoTaicol(results[..i])
    ensures var nc := results[i].source.acceptedNamecode;
      MergeFrom(map[], results, higherTaxa)
        == MergeFrom(map[], results[..i], higherTaxa) + TaicolRecord(nc, higherTaxa(nc))
  {
    var nc := results[i].source.acceptedNamecode;
    assert results == results[..i] + results[i..];
    MergeAppend(results[..i], results[i..], higherTaxa);
    assert results[i..][0] == results[i];
    TaicolStep(map[], nc, higherTaxa(nc));
  }

  /**
   * The record of a `taicol` entry: `__source` is "taicol", `__namecode` its
   * accepted namecode, and every recognized rank of the hierarchy fills its two
   * columns from the last entry of that rank; nothing else is set.
   */
  lemma TaicolRecordColumns(namecode: string, hierarchy: seq<RankEntry>)
    ensures SourceColumn in TaicolRecord(namecode, hierarchy)
    ensures TaicolRecord(namecode, hierarchy)[SourceColumn] == "taicol"
    ensures NamecodeColumn in TaicolRecord(namecode, hierarchy)
    ensures TaicolRecord(namecode, hierarchy)[NamecodeColumn] == namecode
    ensures forall c :: c in TaicolRecord(namecode, hierarchy) ==>
      (c == SourceColumn || c == NamecodeColumn || exists i :: 0 <= i < |hierarchy| && FillsRankColumn(hierarchy[i], c))
    ensures forall i :: LastOfRank(hierarchy, i) && IsRank(hierarchy[i].rank) ==>
      && ZhColumn(hierarchy[i].rank) in TaicolRecord(namecode, hierarchy)
      && TaicolRecord(namecode, hierarchy)[ZhColumn(hierarchy[i].rank)] == hierarchy[i].commonName
      && NameColumn(hierarchy[i].rank) in TaicolRecord(namecode, hierarchy)
      && TaicolRecord(namecode, hierarchy)[NameColumn(hierarchy[i].rank)] == hierarchy[i].simpleName
  {
    var base := map[NamecodeColumn := namecode, SourceColumn := "taicol"];
    assert base + map[] == base;
    ApplyRanksOverlay(base, map[], hierarchy);
    ApplyRanksKeys(hierarchy);
    forall c | c in ApplyRanks(map[], hierarchy) ensures c != SourceColumn && c != NamecodeColumn {
      var k :| 0 <= k < |hierarchy| && FillsRankColumn(hierarchy[k], c);
      RankColumns(hierarchy[k].rank);
    }
    forall i | LastOfRank(hierarchy, i) && IsRank(hierarchy[i].rank) {
      ApplyRanksLastOfRank(hierarchy, i);
    }
  }

  /** An entry whose tag is not one of the three changes nothing, wherever it stands. */
  lemma {:induction false} OtherIgnored(d: Record, pre: seq<ResultEntry>, e: ResultEntry, post: seq<ResultEntry>,
                                       higherTaxa: string -> seq<RankEntry>)
    requires e.source.Other?
    ensures MergeFrom(d, pre + [e] + post, higherTaxa) == MergeFrom(d, pre + post, higherTaxa)
    decreases |pre|
  {
    if pre == [] {
      assert (pre + [e] + post)[0] == e;
      assert (pre + [e] + post)[1..] == pre + post;
    } else {
      assert (pre + [e] + post)[0] == pre[0] == (pre + post)[0];
      assert (pre + [e] + post)[1..] == pre[1..] + [e] + post;
      assert (pre + post)[1..] == pre[1..] + post;
      match pre[0].source
      case Taicol(_) =>
      case Col | Gbif => OtherIgnored(CopyItems(d, RawItems(pre[0])), pre[1..], e, post, higherTaxa);
      case Other(_) => OtherIgnored(d, pre[1..], e, post, higherTaxa);
    }
  }

  /** The merged record is empty exactly when no entry is tagged `taicol`, `col` or `gbif`. */
  lemma {:induction false} MergeEmptyIffAllOther(results: seq<ResultEntry>, higherTaxa: string -> seq<RankEntry>)
    ensures MergeFrom(map[], results, higherTaxa) == map[]
        <==> forall i :: 0 <= i < |results| ==> results[i].source.Other?
    decreases |results|
  {
    if results != [] {
      MergeEmptyIffAllOther(results[1..], higherTaxa);
      forall i | 0 < i < |results| ensures results[i] == results[1..][i - 1] { }
      match results[0].source
      case Taicol(nc) =>
        TaicolRecordColumns(nc, higherTaxa(nc));
        TaicolStep(map[], nc, higherTaxa(nc));
      case Col | Gbif =>
        var raw := RawItems(results[0]);
        CopyItemsColumns(raw);
        assert Get(ReconcileMap, raw[0].0) == Some(SourceColumn);
        MergeOverlay(CopyItems(map[], raw), results[1..], higherTaxa);
      case Other(_) =>
    }
  }

  /** The columns a `taicol` record fills are header fields, or `family_name` for rank Family. */
  lemma TaicolRecordInHeaders(namecode: string, hierarchy: seq<RankEntry>)
    ensures forall c :: c in TaicolRecord(namecode, hierarchy) ==> c in ReconcileHeaders || c == "family_name"
  {
    TaicolRecordColumns(namecode, hierarchy);
    forall c | c in TaicolRecord(namecode, hierarchy) ensures c in ReconcileHeaders || c == "family_name" {
      ReconcileHeadersListed();
      if c != SourceColumn && c != NamecodeColumn {
        var k :| 0 <= k < |hierarchy| && FillsRankColumn(hierarchy[k], c);
        RankColumns(hierarchy[k].rank);
        RankColumnsListed();
      }
    }
  }

  /** The columns a `col`/`gbif` entry fills are header fields. */
  lemma CopyItemsInHeaders(items: seq<(string, string)>)
    ensures forall c :: c in CopyItems(map[], items) ==> c in ReconcileHeaders
  {
    CopyItemsColumns(items);
    forall c | c in CopyItems(map[], items) ensures c in ReconcileHeaders {
      var i :| 0 <= i < |items| && Get(ReconcileMap, items[i].0) == Some(c);
      GetFinds(ReconcileMap, items[i].0);
      var k :| 0 <= k < |ReconcileMap| && ReconcileMap[k] == (items[i].0, c);
      assert ReconcileHeaders[k] == c;
    }
  }

  /**
   * Every column the merge can fill is one of the thirteen appended header
   * fields, or `family_name`, which the `taicol` branch fills for rank Family.
   */
  lemma {:induction false} MergeColumns(results: seq<ResultEntry>, higherTaxa: string -> seq<RankEntry>)
    ensures forall c :: c in MergeFrom(map[], results, higherTaxa) ==> c in ReconcileHeaders || c == "family_name"
    decreases |results|
  {
    if results != [] {
      match results[0].source
      case Taicol(nc) =>
        TaicolStep(map[], nc, higherTaxa(nc));
        TaicolRecordInHeaders(nc, higherTaxa(nc));
      case Col | Gbif =>
        var raw := RawItems(results[0]);
        MergeColumns(results[1..], higherTaxa);
        CopyItemsInHeaders(raw);
        MergeOverlay(CopyItems(map[], raw), results[1..], higherTaxa);
      case Other(_) =>
        MergeColumns(results[1..], higherTaxa);
    }
  }
}
