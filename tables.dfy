/**
 * The two fixed tables of the reconciliation engine and what is derived from them:
 * RECONCILE_MAP (result key -> output column) and RECONCILE_MAP2 (rank -> localized
 * column).  Both are Python dicts, so they are kept here as ordered sequences of
 * (key, value) pairs: their declaration order fixes the order of the output header.
 */
module Tables {
  import opened Wrappers

  type Table = seq<(string, string)>

  /** A flat record, as a Python dict from column name to value. */
  type Record = map<string, string>

  /** RECONCILE_MAP: a key of a `col`/`gbif` result entry -> the output column it fills. */
  const ReconcileMap: Table := [
    ("kingdom", "kingdom_name"),
    ("phylum", "phylum_name"),
    ("class", "class_name"),
    ("order", "order_name"),
    ("genus", "genus_name"),
    ("source", "__source"),
    ("namecode", "__namecode")
  ]

  /** RECONCILE_MAP2: a rank of the higher-taxa hierarchy -> its localized common-name column. */
  const ReconcileMap2: Table := [
    ("Kingdom", "kingdom_name_zh"),
    ("Phylum", "phylum_name_zh"),
    ("Class", "class_name_zh"),
    ("Order", "order_name_zh"),
    ("Family", "family_name_zh"),
    ("Genus", "genus_name_zh")
  ]

  /** `RECONCILE_MAP['source']` and `RECONCILE_MAP['namecode']`. */
  const SourceColumn := "__source"
  const NamecodeColumn := "__namecode"

  /** `table.get(k)`: the value paired with the first occurrence of `k`. */
  function Get(table: Table, k: string): Option<string>
  {
    if table == [] then None
    else if table[0].0 == k then Some(table[0].1)
    else Get(table[1..], k)
  }

  /** A key is found exactly when some pair carries it, and what is found is paired with it. */
  lemma {:induction false} GetFinds(table: Table, k: string)
    ensures Get(table, k).Some? <==> exists i :: 0 <= i < |table| && table[i].0 == k
    ensures Get(table, k).Some? ==> exists i :: 0 <= i < |table| && table[i] == (k, Get(table, k).value)
  {
    if table != [] && table[0].0 != k {
      GetFinds(table[1..], k);
      if Get(table, k).Some? {
        var i :| 0 <= i < |table[1..]| && table[1..][i] == (k, Get(table, k).value);
        assert table[i + 1] == (k, Get(table, k).value);
      }
      forall i | 0 <= i < |table| && table[i].0 == k
        ensures Get(table, k).Some?
      {
        assert table[1..][i - 1].0 == k;
      }
    }
  }

  /** `list(table.values())` */
  function Values(table: Table): seq<string>
  {
    seq(|table|, i requires 0 <= i < |table| => table[i].1)
  }

  /** The thirteen columns appended to the output header, in this fixed order. */
  const ReconcileHeaders: seq<string> := Values(ReconcileMap) + Values(ReconcileMap2)

  /** ASCII lower-casing; on the six rank names of RECONCILE_MAP2 it agrees with `str.lower`. */
  function Lower(s: string): string
  {
    seq(|s|, i requires 0 <= i < |s| => if 'A' <= s[i] <= 'Z' then (s[i] as int + 32) as char else s[i])
  }

  /** `rank.lower() + '_name'`: the scientific-name column a hierarchy entry of that rank fills. */
  function NameColumn(rank: string): string
  {
    Lower(rank) + "_name"
  }

  predicate IsRank(rank: string)
  {
    Get(ReconcileMap2, rank).Some?
  }

  /** The localized column of a recognized rank: `RECONCILE_MAP2[rank]`. */
  function ZhColumn(rank: string): string
    requires IsRank(rank)
  {
    Get(ReconcileMap2, rank).value
  }

  /** The appended header fields, written out. */
  lemma ReconcileHeadersListed()
    ensures ReconcileHeaders == [
      "kingdom_name", "phylum_name", "class_name", "order_name", "genus_name",
      "__source", "__namecode",
      "kingdom_name_zh", "phylum_name_zh", "class_name_zh", "order_name_zh",
      "family_name_zh", "genus_name_zh"]
  {
  }

  /** The columns each of the six ranks fills, written out. */
  lemma RankColumnsListed()
    ensures IsRank("Kingdom") && ZhColumn("Kingdom") == "kingdom_name_zh" && NameColumn("Kingdom") == "kingdom_name"
    ensures IsRank("Phylum") && ZhColumn("Phylum") == "phylum_name_zh" && NameColumn("Phylum") == "phylum_name"
    ensures IsRank("Class") && ZhColumn("Class") == "class_name_zh" && NameColumn("Class") == "class_name"
    ensures IsRank("Order") && ZhColumn("Order") == "order_name_zh" && NameColumn("Order") == "order_name"
    ensures IsRank("Family") && ZhColumn("Family") == "family_name_zh" && NameColumn("Family") == "family_name"
    ensures IsRank("Genus") && ZhColumn("Genus") == "genus_name_zh" && NameColumn("Genus") == "genus_name"
  {
  }

  /** RECONCILE_MAP2 recognizes exactly the six capitalized rank names. */
  lemma {:induction false} RankNames(rank: string)
    requires IsRank(rank)
    ensures rank == "Kingdom" || rank == "Phylum" || rank == "Class"
         || rank == "Order" || rank == "Family" || rank == "Genus"
  {
    GetFinds(ReconcileMap2, rank);
  }

  /**
   * The columns a recognized rank fills: its localized column is always one of
   * the appended header fields; its scientific-name column is one of them for
   * every rank except Family, whose `family_name` is not.  Neither is a
   * provenance column.
   */
  lemma RankColumns(rank: string)
    requires IsRank(rank)
    ensures ZhColumn(rank) in ReconcileHeaders
    ensures NameColumn(rank) in ReconcileHeaders <==> rank != "Family"
    ensures NameColumn(rank) != ZhColumn(rank)
    ensures ZhColumn(rank) !in {SourceColumn, NamecodeColumn}
    ensures NameColumn(rank) !in {SourceColumn, NamecodeColumn}
  {
    RankNames(rank);
    ReconcileHeadersListed();
    RankColumnsListed();
  }

  /** Two different ranks never fill the same column. */
  lemma RankColumnsDistinct(r1: string, r2: string)
    requires IsRank(r1) && IsRank(r2) && r1 != r2
    ensures ZhColumn(r1) != ZhColumn(r2)
    ensures NameColumn(r1) != NameColumn(r2)
    ensures NameColumn(r1) != ZhColumn(r2)
  {
    RankNames(r1);
    RankNames(r2);
    RankColumnsListed();
  }
}
