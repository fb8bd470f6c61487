/**
 * The field mapper of `reconcile`: the column mapping built from the `[fields]`
 * section of the INI file (or the identity), the output header, and the scan of
 * one input row that renames its columns and picks out the values the pipeline
 * tracks (species, unit id, family).
 */
module Fields {
  import opened Wrappers
  import opened Tables

  /** An input row as the CSV reader yields it: (column, value) pairs in column order. */
  type Row = seq<(string, string)>

  /**
   * Where the column mapping comes from: no INI file, or an INI file with or
   * without a `[fields]` section, whose (key, value) pairs are given in order.
   */
  datatype IniConfig = NoIni | Ini(fieldsSection: Option<seq<(string, string)>>)

  /** `for key, value in pairs: map_json[value] = key` */
  function Inverted(pairs: seq<(string, string)>): map<string, string>
  {
    if pairs == [] then map[]
    else Inverted(pairs[..|pairs| - 1])[pairs[|pairs| - 1].1 := pairs[|pairs| - 1].0]
  }

  /** `map_json`: source column -> canonical column. */
  function ColumnMapping(config: IniConfig, inputHeader: seq<string>): map<string, string>
  {
    match config
    case NoIni => map x | x in inputHeader :: x
    case Ini(None) => map[]
    case Ini(Some(pairs)) => Inverted(pairs)
  }

  /** `map_json.get(key, key)` */
  function MapKey(mapping: map<string, string>, key: string): string
  {
    if key in mapping then mapping[key] else key
  }

  /** Builds `map_json` as the source does, one assignment at a time. */
  method BuildMapping(config: IniConfig, inputHeader: seq<string>) returns (mapping: map<string, string>)
    ensures mapping == ColumnMapping(config, inputHeader)
  {
    mapping := map[];
    match config {
      case NoIni =>
        for i := 0 to |inputHeader|
          invariant mapping == map x | x in inputHeader[..i] :: x
        {
          assert inputHeader[..i + 1] == inputHeader[..i] + [inputHeader[i]];
          mapping := mapping[inputHeader[i] := inputHeader[i]];
        }
        assert inputHeader[..|inputHeader|] == inputHeader;
      case Ini(section) =>
        if section.Some? {
          var pairs := section.value;
          for i := 0 to |pairs|
            invariant mapping == Inverted(pairs[..i])
          {
            assert pairs[..i + 1][..i] == pairs[..i];
            mapping := mapping[pairs[i].1 := pairs[i].0];
          }
          assert pairs[..|pairs|] == pairs;
        }
    }
  }

  /**
   * With a `[fields]` section, a source column is renamed exactly when some pair
   * names it as its value, and then to the key of the last such pair.
   */
  lemma {:induction false} InvertedRenames(pairs: seq<(string, string)>, column: string)
    ensures column in Inverted(pairs) <==> exists i :: 0 <= i < |pairs| && pairs[i].1 == column
    ensures forall i :: 0 <= i < |pairs| && pairs[i].1 == column && (forall j :: i < j < |pairs| ==> pairs[j].1 != column) ==>
      column in Inverted(pairs) && Inverted(pairs)[column] == pairs[i].0
    decreases |pairs|
  {
    if pairs != [] {
      var n := |pairs| - 1;
      var prefix := pairs[..n];
      InvertedRenames(prefix, column);
      forall i | 0 <= i < n ensures prefix[i] == pairs[i] { }
    }
  }

  /** Without an INI file, or without a `[fields]` section, every column keeps its name. */
  lemma IdentityMapping(config: IniConfig, inputHeader: seq<string>, column: string)
    requires config == NoIni || config == Ini(None)
    ensures MapKey(ColumnMapping(config, inputHeader), column) == column
  {
  }

  /** `[map_json.get(x, x) for x in reader.fieldnames]` */
  function MappedHeader(mapping: map<string, string>, inputHeader: seq<string>): seq<string>
  {
    seq(|inputHeader|, i requires 0 <= i < |inputHeader| => MapKey(mapping, inputHeader[i]))
  }

  /** The fields of `extra`, in order, that `fields` does not already hold. */
  function Missing(fields: seq<string>, extra: seq<string>): seq<string>
  {
    if extra == [] then []
    else Missing(fields, extra[..|extra| - 1]) + (if extra[|extra| - 1] in fields then [] else [extra[|extra| - 1]])
  }

  /** The output header: the mapped input columns, then each appended field not among them. */
  function Header(mapping: map<string, string>, inputHeader: seq<string>): seq<string>
  {
    MappedHeader(mapping, inputHeader) + Missing(MappedHeader(mapping, inputHeader), ReconcileHeaders)
  }

  lemma {:induction false} MissingFields(fields: seq<string>, extra: seq<string>)
    ensures forall x :: x in Missing(fields, extra) <==> x in extra && x !in fields
    decreases |extra|
  {
    if extra != [] {
      MissingFields(fields, extra[..|extra| - 1]);
      assert extra == extra[..|extra| - 1] + [extra[|extra| - 1]];
    }
  }

  /**
   * `Missing` keeps the order of `extra`: `idx` gives, for each field it
   * returns, a position in `extra` holding that field, and these positions
   * strictly increase.
   */
  lemma {:induction false} MissingInOrder(fields: seq<string>, extra: seq<string>) returns (idx: seq<nat>)
    ensures |idx| == |Missing(fields, extra)|
    ensures forall i :: 0 <= i < |idx| ==> idx[i] < |extra| && extra[idx[i]] == Missing(fields, extra)[i]
    ensures forall i, j :: 0 <= i < j < |idx| ==> idx[i] < idx[j]
    decreases |extra|
  {
    if extra == [] {
      idx := [];
    } else {
      var n := |extra| - 1;
      var prev := MissingInOrder(fields, extra[..n]);
      if extra[n] in fields {
        idx := prev;
      } else {
        idx := prev + [n];
      }
    }
  }

  /** The position of the first occurrence of `x` in `s`, or `|s|` when `s` does not hold it. */
  function IndexOf(s: seq<string>, x: string): (k: nat)
    ensures k <= |s| && (k < |s| <==> x in s)
    ensures k < |s| ==> s[k] == x && x !in s[..k]
  {
    if s == [] then 0
    else if s[0] == x then 0
    else (assert s[1..][..IndexOf(s[1..], x)] == s[1..1 + IndexOf(s[1..], x)];
          1 + IndexOf(s[1..], x))
  }

  /** In a sequence without repeats, the field at position `p` is first found there. */
  lemma IndexOfAt(s: seq<string>, p: nat)
    requires p < |s|
    requires forall i, j :: 0 <= i < j < |s| ==> s[i] != s[j]
    ensures IndexOf(s, s[p]) == p
  {
    var k := IndexOf(s, s[p]);
    assert k <= p by {
      assert s[p] in s;
    }
    assert s[k] == s[p];
  }

  /** The thirteen appended fields are pairwise distinct. */
  lemma ReconcileHeadersDistinct()
    ensures forall i, j :: 0 <= i < j < |ReconcileHeaders| ==> ReconcileHeaders[i] != ReconcileHeaders[j]
  {
    ReconcileHeadersListed();
  }

  /**
   * The header holds the mapped input columns in input order, then exactly the
   * appended fields that were not among them, and so every appended field.
   */
  lemma HeaderColumns(mapping: map<string, string>, inputHeader: seq<string>)
    ensures |Header(mapping, inputHeader)| >= |inputHeader|
    ensures forall i :: 0 <= i < |inputHeader| ==> Header(mapping, inputHeader)[i] == MapKey(mapping, inputHeader[i])
    ensures forall x :: x in Header(mapping, inputHeader)[|inputHeader|..] <==>
      x in ReconcileHeaders && x !in MappedHeader(mapping, inputHeader)
    ensures forall x :: x in ReconcileHeaders ==> x in Header(mapping, inputHeader)
    ensures forall i, j :: |inputHeader| <= i < j < |Header(mapping, inputHeader)| ==>
      IndexOf(ReconcileHeaders, Header(mapping, inputHeader)[i]) < IndexOf(ReconcileHeaders, Header(mapping, inputHeader)[j])
  {
    var mapped := MappedHeader(mapping, inputHeader);
    MissingFields(mapped, ReconcileHeaders);
    var tail := Missing(mapped, ReconcileHeaders);
    assert Header(mapping, inputHeader)[|inputHeader|..] == tail;
    var idx := MissingInOrder(mapped, ReconcileHeaders);
    ReconcileHeadersDistinct();
    forall i, j | |inputHeader| <= i < j < |Header(mapping, inputHeader)|
      ensures IndexOf(ReconcileHeaders, Header(mapping, inputHeader)[i]) < IndexOf(ReconcileHeaders, Header(mapping, inputHeader)[j])
    {
      var a, b := i - |inputHeader|, j - |inputHeader|;
      IndexOfAt(ReconcileHeaders, idx[a]);
      IndexOfAt(ReconcileHeaders, idx[b]);
    }
  }

  /** Builds the header as the source does: appends each field in turn unless the header already holds it. */
  method BuildHeader(mapping: map<string, string>, inputHeader: seq<string>) returns (fieldnames: seq<string>)
    ensures fieldnames == Header(mapping, inputHeader)
  {
    var mapped := MappedHeader(mapping, inputHeader);
    fieldnames := mapped;
    ReconcileHeadersDistinct();
    for i := 0 to |ReconcileHeaders|
      invariant fieldnames == mapped + Missing(mapped, ReconcileHeaders[..i])
    {
      var f := ReconcileHeaders[i];
      MissingFields(mapped, ReconcileHeaders[..i]);
      assert f !in ReconcileHeaders[..i];
      assert ReconcileHeaders[..i + 1][..i] == ReconcileHeaders[..i];
      if f !in fieldnames {
        fieldnames := fieldnames + [f];
      }
    }
    assert ReconcileHeaders[..|ReconcileHeaders|] == ReconcileHeaders;
  }

  /** `new_dict` before any merge: each column under its mapped name, a later column overwriting an earlier one. */
  function MapRow(mapping: map<string, string>, row: Row): Record
  {
    if row == [] then map[]
    else MapRow(mapping, row[..|row| - 1])[MapKey(mapping, row[|row| - 1].0) := row[|row| - 1].1]
  }

  /** The value of the last column whose mapped name is in `names`, if any. */
  function LastValue(mapping: map<string, string>, row: Row, names: set<string>): Option<string>
  {
    if row == [] then None
    else if MapKey(mapping, row[|row| - 1].0) in names then Some(row[|row| - 1].1)
    else LastValue(mapping, row[..|row| - 1], names)
  }

  const SpeciesColumn := "species_name"
  const FamilyColumn := "family_name"
  /** Both columns feed the one tracked unit id. */
  const UnitColumns: set<string> := {"unit_id", "voucher_id"}

  /**
   * The column loop of one row: builds `new_dict` and tracks the species, the unit
   * id (from `unit_id` or `voucher_id`, whichever comes last) and the family.
   */
  method ScanRow(mapping: map<string, string>, row: Row)
    returns (newDict: Record, species: Option<string>, unitId: Option<string>, family: Option<string>)
    ensures newDict == MapRow(mapping, row)
    ensures species == LastValue(mapping, row, {SpeciesColumn})
    ensures unitId == LastValue(mapping, row, UnitColumns)
    ensures family == LastValue(mapping, row, {FamilyColumn})
  {
    newDict, species, unitId, family := map[], None, None, None;
    for i := 0 to |row|
      invariant newDict == MapRow(mapping, row[..i])
      invariant species == LastValue(mapping, row[..i], {SpeciesColumn})
      invariant unitId == LastValue(mapping, row[..i], UnitColumns)
      invariant family == LastValue(mapping, row[..i], {FamilyColumn})
    {
      var (key, value) := row[i];
      assert row[..i + 1][..i] == row[..i];
      var mappedKey := MapKey(mapping, key);
      newDict := newDict[mappedKey := value];
      if mappedKey == "unit_id" {
        unitId := Some(value);
      } else if mappedKey == "voucher_id" {
        unitId := Some(value);
      } else if mappedKey == SpeciesColumn {
        species := Some(value);
      } else if mappedKey == FamilyColumn {
        family := Some(value);
      }
    }
    assert row[..|row|] == row;
  }

  /**
   * The tracked value of a set of names comes from the last column mapped into
   * it; there is none exactly when no column is.
   */
  lemma {:induction false} LastValueIsLast(mapping: map<string, string>, row: Row, names: set<string>)
    ensures LastValue(mapping, row, names).None? <==> forall i :: 0 <= i < |row| ==> MapKey(mapping, row[i].0) !in names
    ensures forall i ::
      (0 <= i < |row| && MapKey(mapping, row[i].0) in names
       && forall j :: i < j < |row| ==> MapKey(mapping, row[j].0) !in names) ==>
      LastValue(mapping, row, names) == Some(row[i].1)
    decreases |row|
  {
    if row != [] {
      var n := |row| - 1;
      LastValueIsLast(mapping, row[..n], names);
      forall i | 0 <= i < n ensures row[..n][i] == row[i] { }
    }
  }

  /** A single tracked name reads the same value as the mapped row holds under it. */
  lemma {:induction false} LastValueInMappedRow(mapping: map<string, string>, row: Row, name: string)
    ensures LastValue(mapping, row, {name}) == if name in MapRow(mapping, row) then Some(MapRow(mapping, row)[name]) else None
    decreases |row|
  {
    if row != [] {
      LastValueInMappedRow(mapping, row[..|row| - 1], name);
    }
  }
}
