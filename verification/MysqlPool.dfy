/** The in-process MySQL stand-in: tables of rows stored under a composite of their key fields, found
  * again by comparing fields. */
module MysqlPool {
  import opened Wrappers

  type QueryRow = map<string, string>
  type Table = map<string, QueryRow>

  function FieldOf(row: QueryRow, field: string): string {
    if field in row then row[field] else ""
  }

  /** The key fields' values joined with '|', which is left out as long as nothing precedes it. */
  function CompositeFrom(result: string, row: QueryRow, fields: seq<string>): string
    decreases |fields|
  {
    if |fields| == 0 then result
    else CompositeFrom((if result != "" then result + "|" else result) + FieldOf(row, fields[0]), row, fields[1..])
  }

  function CompositeKey(row: QueryRow, fields: seq<string>): string {
    CompositeFrom("", row, fields)
  }

  /** The fields' values, a bar in front of each. */
  function Barred(row: QueryRow, fields: seq<string>): string {
    if |fields| == 0 then ""
    else "|" + (if fields[0] in row then row[fields[0]] else "") + Barred(row, fields[1..])
  }

  lemma {:induction false} CompositeGoesOn(result: string, row: QueryRow, fields: seq<string>)
    requires result != ""
    ensures CompositeFrom(result, row, fields) == result + Barred(row, fields)
    decreases |fields|
  {
    if |fields| == 0 {
      assert result + "" == result;
    } else {
      var value := FieldOf(row, fields[0]);
      CompositeGoesOn(result + "|" + value, row, fields[1..]);
      assert result + "|" + value + Barred(row, fields[1..]) == result + ("|" + value + Barred(row, fields[1..]));
    }
  }

  /** Leading fields that are absent or empty leave no trace in the key; from the first other one on the
    * values are joined with bars, empty ones too. */
  lemma CompositeExactly(row: QueryRow, fields: seq<string>)
    requires |fields| > 0
    ensures
      if fields[0] in row && row[fields[0]] != "" then
        CompositeKey(row, fields) == row[fields[0]] + Barred(row, fields[1..])
      else
        CompositeKey(row, fields) == CompositeKey(row, fields[1..])
  {
    var value := FieldOf(row, fields[0]);
    assert "" + value == value;
    if value != "" {
      CompositeGoesOn(value, row, fields[1..]);
    }
  }

  method BuildCompositeKey(row: QueryRow, fields: seq<string>) returns (result: string)
    ensures result == CompositeKey(row, fields)
  {
    result := "";
    for i := 0 to |fields|
      invariant CompositeKey(row, fields) == CompositeFrom(result, row, fields[i..])
    {
      if result != "" {
        result := result + "|";
      }
      if fields[i] in row {
        result := result + row[fields[i]];
      } else {
        assert result + "" == result;
      }
      assert fields[i..][1..] == fields[i + 1..];
    }
  }

  predicate Matches(row: QueryRow, filters: QueryRow) {
    forall field | field in filters :: field in row && row[field] == filters[field]
  }

  function Upserted(table: Table, row: QueryRow, fields: seq<string>): Table {
    table[CompositeKey(row, fields) := row]
  }

  /** The stored keys of the rows that match. */
  function MatchingKeys(table: Table, filters: QueryRow): set<string> {
    set key | key in table && Matches(table[key], filters)
  }

  function TableOf(tables: map<string, Table>, name: string): Table {
    if name in tables then tables[name] else map[]
  }

  class ConnectionPool {
    var tables: map<string, Table>

    constructor ()
      ensures tables == map[]
    {
      tables := map[];
    }

    method UpsertRow(table: string, row: QueryRow, keyFields: seq<string>) returns (done: bool)
      modifies this
      ensures done && tables == old(tables)[table := Upserted(TableOf(old(tables), table), row, keyFields)]
    {
      var key := BuildCompositeKey(row, keyFields);
      var rows := if table in tables then tables[table] else map[];
      tables := tables[table := rows[key := row]];
      return true;
    }

    /** The first row, in whatever order the table is walked, whose field has the value. */
    method GetRow(table: string, keyField: string, keyValue: string) returns (found: Option<QueryRow>)
      ensures found.Some? ==>
        exists key :: key in MatchingKeys(TableOf(tables, table), map[keyField := keyValue])
                      && found.value == TableOf(tables, table)[key]
      ensures found.None? ==> MatchingKeys(TableOf(tables, table), map[keyField := keyValue]) == {}
    {
      if table !in tables {
        return None;
      }
      var rows := tables[table];
      var rest := rows.Keys;
      while rest != {}
        invariant rest <= rows.Keys
        invariant forall key | key in rows && key !in rest :: !Matches(rows[key], map[keyField := keyValue])
        decreases |rest|
      {
        var key :| key in rest;
        if keyField in rows[key] && rows[key][keyField] == keyValue {
          assert key in MatchingKeys(TableOf(tables, table), map[keyField := keyValue]);
          return Some(rows[key]);
        }
        rest := rest - {key};
      }
      return None;
    }

    /** The matching rows, each once, in whatever order the table is walked; `keys` names them. */
    method FindRows(table: string, filters: QueryRow) returns (rows: seq<QueryRow>, ghost keys: seq<string>)
      ensures |rows| == |keys|
      ensures forall i | 0 <= i < |keys| ::
                keys[i] in TableOf(tables, table) && rows[i] == TableOf(tables, table)[keys[i]]
      ensures forall i, j | 0 <= i < j < |keys| :: keys[i] != keys[j]
      ensures (set key | key in keys) == MatchingKeys(TableOf(tables, table), filters)
      ensures |rows| == |MatchingKeys(TableOf(tables, table), filters)|
      ensures forall row :: row in rows <==>
                exists key :: key in MatchingKeys(TableOf(tables, table), filters) && TableOf(tables, table)[key] == row
    {
      rows, keys := [], [];
      if table !in tables {
        return;
      }
      var stored := tables[table];
      var rest := stored.Keys;
      while rest != {}
        invariant rest <= stored.Keys
        invariant |rows| == |keys|
        invariant forall i | 0 <= i < |keys| :: keys[i] in stored && keys[i] !in rest && rows[i] == stored[keys[i]]
        invariant forall i, j | 0 <= i < j < |keys| :: keys[i] != keys[j]
        invariant forall key | key in stored && key !in rest :: key in keys <==> Matches(stored[key], filters)
        decreases |rest|
      {
        var key :| key in rest;
        if Matches(stored[key], filters) {
          rows, keys := rows + [stored[key]], keys + [key];
        }
        rest := rest - {key};
      }
      DistinctCount(keys);
      assert forall i | 0 <= i < |keys| :: keys[i] in (set key | key in keys);
    }
  }

  lemma {:induction false} DistinctCount(keys: seq<string>)
    requires forall i, j | 0 <= i < j < |keys| :: keys[i] != keys[j]
    ensures |set key | key in keys| == |keys|
  {
    if |keys| > 0 {
      var front, last := keys[..|keys| - 1], keys[|keys| - 1];
      DistinctCount(front);
      assert (set key | key in keys) == (set key | key in front) + {last};
    }
  }

  // -------------------------------------------------------------------------------------------
  // Looking a row up by all its key fields
  // -------------------------------------------------------------------------------------------

  /** Every row is stored under its own composite key, as in a table always written with the same key fields. */
  ghost predicate Keyed(table: Table, fields: seq<string>) {
    forall key | key in table :: CompositeKey(table[key], fields) == key
  }

  lemma {:induction false} MatchingRowsShareTheKey(
      result: string, row: QueryRow, filters: QueryRow, fields: seq<string>)
    requires Matches(row, filters) && forall i | 0 <= i < |fields| :: fields[i] in filters
    ensures CompositeFrom(result, row, fields) == CompositeFrom(result, filters, fields)
    decreases |fields|
  {
    if |fields| > 0 {
      MatchingRowsShareTheKey(
        (if result != "" then result + "|" else result) + FieldOf(row, fields[0]), row, filters, fields[1..]);
    }
  }

  lemma UpsertKeepsKeyed(table: Table, row: QueryRow, fields: seq<string>)
    requires Keyed(table, fields)
    ensures Keyed(Upserted(table, row, fields), fields)
  {
  }

  /** With every key field fixed by the filter at most one row matches, the one stored under the
    * filter's own composite key. */
  lemma ExactLookup(table: Table, filters: QueryRow, fields: seq<string>)
    requires Keyed(table, fields) && forall i | 0 <= i < |fields| :: fields[i] in filters
    ensures
      var key := CompositeKey(filters, fields);
      MatchingKeys(table, filters) == if key in table && Matches(table[key], filters) then {key} else {}
  {
    forall key | key in MatchingKeys(table, filters)
      ensures key == CompositeKey(filters, fields)
    {
      MatchingRowsShareTheKey("", table[key], filters, fields);
    }
  }

  function TableAfter(upserts: seq<QueryRow>, fields: seq<string>, n: nat): Table
    requires n <= |upserts|
  {
    if n == 0 then map[] else Upserted(TableAfter(upserts, fields, n - 1), upserts[n - 1], fields)
  }

  /** The last of the first `n` upserts that wrote to this composite key. */
  function LastWriter(upserts: seq<QueryRow>, fields: seq<string>, n: nat, key: string): (r: Option<nat>)
    requires n <= |upserts|
    ensures r.Some? ==> r.value < n && CompositeKey(upserts[r.value], fields) == key
    ensures forall j | (if r.Some? then r.value + 1 else 0) <= j < n :: CompositeKey(upserts[j], fields) != key
  {
    if n == 0 then None
    else if CompositeKey(upserts[n - 1], fields) == key then Some(n - 1)
    else LastWriter(upserts, fields, n - 1, key)
  }

  lemma {:induction false} TableHoldsLastWriters(upserts: seq<QueryRow>, fields: seq<string>, n: nat, key: string)
    requires n <= |upserts|
    ensures Keyed(TableAfter(upserts, fields, n), fields)
    ensures
      match LastWriter(upserts, fields, n, key)
      case None => key !in TableAfter(upserts, fields, n)
      case Some(k) => key in TableAfter(upserts, fields, n) && TableAfter(upserts, fields, n)[key] == upserts[k]
  {
    if n > 0 {
      TableHoldsLastWriters(upserts, fields, n - 1, key);
    }
  }

  /** Upsert `k` is the last of the first `n` whose row has the key fields looked for. */
  ghost predicate LastMatch(upserts: seq<QueryRow>, filters: QueryRow, n: nat, k: nat)
    requires n <= |upserts|
  {
    && k < n
    && Matches(upserts[k], filters)
    && forall j | k < j < n :: !Matches(upserts[j], filters)
  }

  /** After any upserts, looking up all key fields finds the last row upserted with those fields exactly
    * when no later upsert with other fields ran into the same composite key; then it is the only row found. */
  lemma FindsTheLastUpsertExactly(upserts: seq<QueryRow>, fields: seq<string>, n: nat, filters: QueryRow, k: nat)
    requires n <= |upserts| && forall i | 0 <= i < |fields| :: fields[i] in filters
    requires LastMatch(upserts, filters, n, k)
    ensures
      var table, key := TableAfter(upserts, fields, n), CompositeKey(filters, fields);
      (MatchingKeys(table, filters) == {key} && key in table && table[key] == upserts[k]) <==>
        forall j | k < j < n :: CompositeKey(upserts[j], fields) != key
  {
    var table, key := TableAfter(upserts, fields, n), CompositeKey(filters, fields);
    TableHoldsLastWriters(upserts, fields, n, key);
    ExactLookup(table, filters, fields);
    MatchingRowsShareTheKey("", upserts[k], filters, fields);
    var writer := LastWriter(upserts, fields, n, key).value;
    assert writer > k ==> !Matches(upserts[writer], filters);
  }
}
