/**
 * From the spreadsheet to the placeholder mapping: dropping the rows
 * without a name, reading one field of a row (`get_value`) and building
 * the eleven-token mapping (`build_mapping`).
 */
module Records {
  import opened Text
  import opened Cells
  import opened Columns
  import Substitution

  /** One spreadsheet row: the cell under each header. */
  type Record = map<string, CellValue>

  /** Every row has a cell under every header. */
  predicate Rectangular(headers: seq<string>, rows: seq<Record>) {
    forall r, h | r in rows && h in headers :: h in r
  }

  /** The row's name as the filter sees it: `to_str` of the name cell, stripped again. */
  function NameText(row: Record, nameCol: string): string
    requires nameCol in row
  {
    Strip(ToStr(row[nameCol]))
  }

  /** The filter's test: the name is not blank. */
  predicate HasName(row: Record, nameCol: string) {
    nameCol in row && NameText(row, nameCol) != []
  }

  /**
   * The row filter on the name column: the rows with a non-blank name, in
   * their original order, each kept as often as it occurs.
   */
  function KeepNamedRows(rows: seq<Record>, nameCol: string): (kept: seq<Record>)
    ensures |kept| <= |rows|
    ensures forall i | 0 <= i < |kept| :: HasName(kept[i], nameCol)
    ensures forall x :: multiset(kept)[x] == if HasName(x, nameCol) then multiset(rows)[x] else 0
  {
    if rows == [] then []
    else
      var init := rows[..|rows| - 1];
      var last := rows[|rows| - 1];
      assert rows == init + [last];
      assert multiset(rows) == multiset(init) + multiset{last};
      var kept := KeepNamedRows(init, nameCol);
      if HasName(last, nameCol) then kept + [last] else kept
  }

  /** The filter's step: the last row is appended exactly when its name is not blank. */
  lemma KeepNamedRowsLast(rows: seq<Record>, nameCol: string)
    requires rows != []
    ensures var last := rows[|rows| - 1];
            KeepNamedRows(rows, nameCol)
            == KeepNamedRows(rows[..|rows| - 1], nameCol) + (if HasName(last, nameCol) then [last] else [])
  {
  }

  /**
   * The filter works row by row: filtering a concatenation filters each
   * part, so the kept rows keep their original order.
   */
  lemma {:induction false} KeepNamedRowsAppend(a: seq<Record>, b: seq<Record>, nameCol: string)
    ensures KeepNamedRows(a + b, nameCol) == KeepNamedRows(a, nameCol) + KeepNamedRows(b, nameCol)
    decreases |b|
  {
    if b == [] {
      assert a + b == a;
    } else {
      var ab := a + b;
      var init, last := b[..|b| - 1], b[|b| - 1];
      var tail := if HasName(last, nameCol) then [last] else [];
      var ka, ki := KeepNamedRows(a, nameCol), KeepNamedRows(init, nameCol);
      AppendLast(a, b);
      calc {
        KeepNamedRows(ab, nameCol);
        { KeepNamedRowsLast(ab, nameCol); }
        KeepNamedRows(a + init, nameCol) + tail;
        { KeepNamedRowsAppend(a, init, nameCol); }
        (ka + ki) + tail;
        { AppendAssociative(ka, ki, tail); }
        ka + (ki + tail);
        { KeepNamedRowsLast(b, nameCol); }
        ka + KeepNamedRows(b, nameCol);
      }
    }
  }

  /** The last element of a concatenation with a non-empty right part comes from that part. */
  lemma AppendLast<T>(a: seq<T>, b: seq<T>)
    requires b != []
    ensures (a + b)[..|a + b| - 1] == a + b[..|b| - 1]
    ensures (a + b)[|a + b| - 1] == b[|b| - 1]
  {
  }

  lemma AppendAssociative<T>(x: seq<T>, y: seq<T>, z: seq<T>)
    ensures (x + y) + z == x + (y + z)
  {
  }

  /** A single row is kept exactly when its name is not blank. */
  lemma KeepNamedRowsOne(row: Record, nameCol: string)
    ensures KeepNamedRows([row], nameCol) == if HasName(row, nameCol) then [row] else []
  {
    KeepNamedRowsLast([row], nameCol);
    assert [row][..0] == [];
  }

  /** No row is left exactly when every row has a blank name. */
  lemma KeepNamedRowsEmptyIff(rows: seq<Record>, nameCol: string)
    ensures KeepNamedRows(rows, nameCol) == [] <==> forall i | 0 <= i < |rows| :: !HasName(rows[i], nameCol)
  {
    var kept := KeepNamedRows(rows, nameCol);
    if kept == [] {
      forall i | 0 <= i < |rows|
        ensures !HasName(rows[i], nameCol)
      {
        assert multiset(rows)[rows[i]] > 0;
      }
    } else {
      assert multiset(kept)[kept[0]] > 0;
    }
  }

  /** The header `find_col` returns is one of the headers. */
  lemma ColumnForInHeaders(headers: seq<string>, candidates: seq<string>)
    ensures ColumnFor(headers, candidates).Some? ==> ColumnFor(headers, candidates).value in headers
  {
    ColumnForFinds(headers, candidates);
  }

  /** Every resolved column is one of the headers. */
  lemma {:induction false} ResolvedInHeaders(headers: seq<string>, c: Catalog)
    ensures forall k | k in Resolved(FindIn(headers), c) :: Resolved(FindIn(headers), c)[k] in headers
  {
    if c != [] {
      ResolvedInHeaders(headers, c[..|c| - 1]);
      ColumnForInHeaders(headers, c[|c| - 1].1);
    }
  }

  /** The name column is required, so it is resolved whenever resolution succeeds. */
  lemma NameResolved(headers: seq<string>)
    ensures var res := Resolution(headers, RequiredColumns, OptionalColumns);
            res.Success? ==> "name" in res.value
  {
    var res := Resolution(headers, RequiredColumns, OptionalColumns);
    if res.Success? {
      var c := RequiredColumns;
      assert c[0].0 == "name";
      UnresolvedMembers(FindIn(headers), c, "name");
      ResolvedMembers(FindIn(headers), c, "name");
      ColumnForSomeIff(headers, c[0].1);
    }
  }

  /** What loading the table yields: the resolved columns and the named rows. */
  datatype Loaded = Loaded(resolved: map<string, string>, rows: seq<Record>)

  /**
   * The loading script: resolve the columns, stopping on missing required
   * ones, then keep the named rows, stopping when none is left.
   */
  function Load(headers: seq<string>, rows: seq<Record>): Outcome<Loaded>
  {
    match Resolution(headers, RequiredColumns, OptionalColumns)
    case Failed(e) => Failed(e)
    case Success(resolved) =>
      NameResolved(headers);
      var kept := KeepNamedRows(rows, resolved["name"]);
      if kept == [] then Failed(NoNamedRows) else Success(Loaded(resolved, kept))
  }

  /**
   * The loading script as it runs: the resolution loops, then the row
   * filter on the resolved name column.
   */
  method LoadTable(headers: seq<string>, rows: seq<Record>) returns (res: Outcome<Loaded>)
    ensures res == Load(headers, rows)
  {
    var resolution := ResolveColumns(headers, RequiredColumns, OptionalColumns);
    if resolution.Failed? {
      return Failed(resolution.error);
    }
    var resolved := resolution.value;
    NameResolved(headers);
    var kept := KeepNamedRows(rows, resolved["name"]);
    if kept == [] {
      return Failed(NoNamedRows);
    }
    return Success(Loaded(resolved, kept));
  }

  /** Loading stops for missing columns exactly when some required key matches no header. */
  lemma LoadMissingColumnsIff(headers: seq<string>, rows: seq<Record>)
    ensures var res := Load(headers, rows);
            res.Failed? && res.error.MissingColumns? <==>
              exists a | 0 <= a < |RequiredColumns| :: !Resolvable(headers, RequiredColumns[a].1)
  {
    CatalogsWellFormed();
    ResolutionMeaning(headers, RequiredColumns, OptionalColumns);
  }

  /** Loading stops for want of names exactly when the columns resolve but every name is blank. */
  lemma LoadNoNamesIff(headers: seq<string>, rows: seq<Record>)
    ensures var res := Resolution(headers, RequiredColumns, OptionalColumns);
            Load(headers, rows) == Failed(NoNamedRows) <==>
              res.Success? && "name" in res.value
              && forall i | 0 <= i < |rows| :: !HasName(rows[i], res.value["name"])
  {
    NameResolved(headers);
    var res := Resolution(headers, RequiredColumns, OptionalColumns);
    if res.Success? {
      KeepNamedRowsEmptyIff(rows, res.value["name"]);
    }
  }

  /** A loaded table has every required key resolved, each to one of its headers. */
  lemma LoadedColumns(headers: seq<string>, rows: seq<Record>)
    ensures var res := Load(headers, rows);
            res.Success? ==>
              (forall a | 0 <= a < |RequiredColumns| :: RequiredColumns[a].0 in res.value.resolved)
              && (forall k | k in res.value.resolved :: res.value.resolved[k] in headers)
  {
    var res := Load(headers, rows);
    if res.Success? {
      var find := FindIn(headers);
      assert res.value.resolved == Resolved(find, RequiredColumns) + Resolved(find, OptionalColumns);
      CatalogsWellFormed();
      forall a | 0 <= a < |RequiredColumns|
        ensures RequiredColumns[a].0 in res.value.resolved
      {
        ResolutionMeaning(headers, RequiredColumns, OptionalColumns);
      }
      ResolvedInHeaders(headers, RequiredColumns);
      ResolvedInHeaders(headers, OptionalColumns);
    }
  }

  /**
   * A loaded table keeps exactly the named rows, at least one, each with a
   * cell under every resolved column.
   */
  lemma LoadedRows(headers: seq<string>, rows: seq<Record>)
    requires Rectangular(headers, rows)
    ensures var res := Load(headers, rows);
            res.Success? ==>
              "name" in res.value.resolved
              && res.value.rows == KeepNamedRows(rows, res.value.resolved["name"])
              && res.value.rows != []
              && (forall r, k | r in res.value.rows && k in res.value.resolved :: res.value.resolved[k] in r)
  {
    var res := Load(headers, rows);
    if res.Success? {
      NameResolved(headers);
      LoadedColumns(headers, rows);
      var resolved := res.value.resolved;
      KeptRowsHaveColumns(headers, rows, resolved["name"], resolved);
    }
  }

  /** A kept row of a rectangular table has a cell under every column that names a header. */
  lemma KeptRowsHaveColumns(headers: seq<string>, rows: seq<Record>, nameCol: string, resolved: map<string, string>)
    requires Rectangular(headers, rows)
    requires forall k | k in resolved :: resolved[k] in headers
    ensures forall r, k | r in KeepNamedRows(rows, nameCol) && k in resolved :: resolved[k] in r
  {
    var kept := KeepNamedRows(rows, nameCol);
    forall r, k | r in kept && k in resolved
      ensures resolved[k] in r
    {
      assert multiset(kept)[r] > 0;
      assert r in rows;
    }
  }

  /** `get_value`: the display text of the row's cell for `key`, or "" when the key did not resolve. */
  function GetValue(row: Record, key: string, resolved: map<string, string>): (r: string)
    requires key in resolved ==> resolved[key] in row
    ensures key !in resolved ==> r == []
    ensures key in resolved && row[resolved[key]].Str? ==> IsStripped(r)
    ensures key in resolved && row[resolved[key]].Missing? ==> r == []
  {
    if key in resolved then ToStr(row[resolved[key]]) else []
  }

  /** The eleven placeholder keys, in the order the mapping lists them. */
  const TokenKeys: seq<string> := [
    "name", "nationality", "id", "birth_place", "birth_date", "expiry_date",
    "marital_status", "address", "city", "email", "mobile"
  ]

  /** The placeholder written in a template for a key. */
  function Token(key: string): string {
    "{{" + key + "}}"
  }

  /**
   * `build_mapping`: one entry per placeholder key, in order, each holding
   * the row's text for that key.
   */
  function BuildMapping(row: Record, resolved: map<string, string>): (m: Substitution.Mapping)
    requires forall k | k in resolved :: resolved[k] in row
    ensures |m| == |TokenKeys|
    ensures forall i | 0 <= i < |m| :: m[i].0 == Token(TokenKeys[i])
    ensures forall i | 0 <= i < |m| :: m[i].1 == GetValue(row, TokenKeys[i], resolved)
    ensures forall i | 0 <= i < |m| :: TokenKeys[i] !in resolved ==> m[i].1 == []
  {
    [
      (Token("name"), GetValue(row, "name", resolved)),
      (Token("nationality"), GetValue(row, "nationality", resolved)),
      (Token("id"), GetValue(row, "id", resolved)),
      (Token("birth_place"), GetValue(row, "birth_place", resolved)),
      (Token("birth_date"), GetValue(row, "birth_date", resolved)),
      (Token("expiry_date"), GetValue(row, "expiry_date", resolved)),
      (Token("marital_status"), GetValue(row, "marital_status", resolved)),
      (Token("address"), GetValue(row, "address", resolved)),
      (Token("city"), GetValue(row, "city", resolved)),
      (Token("email"), GetValue(row, "email", resolved)),
      (Token("mobile"), GetValue(row, "mobile", resolved))
    ]
  }

  /** The placeholder of a key gives the key back. */
  lemma TokenInjective(a: string, b: string)
    ensures Token(a) == Token(b) ==> a == b
  {
    assert a == Token(a)[2..|Token(a)| - 2];
    assert b == Token(b)[2..|Token(b)| - 2];
  }

  /** The eleven placeholders are distinct, as the keys of a dictionary are. */
  lemma TokensDistinct()
    ensures forall i, j | 0 <= i < j < |TokenKeys| :: Token(TokenKeys[i]) != Token(TokenKeys[j])
  {
    forall i, j | 0 <= i < j < |TokenKeys|
      ensures Token(TokenKeys[i]) != Token(TokenKeys[j])
    {
      TokenInjective(TokenKeys[i], TokenKeys[j]);
    }
  }

  /**
   * For a row the filter kept, the name placeholder gets a non-blank
   * value, so the file name built from it never falls back to `contract`
   * and is never empty.
   */
  lemma KeptRowNamesFile(row: Record, resolved: map<string, string>)
    requires forall k | k in resolved :: resolved[k] in row
    requires "name" in resolved && HasName(row, resolved["name"])
    ensures var name := BuildMapping(row, resolved)[0].1;
            name != [] && FilenameBase(name) == Strip(name) && FilenameBase(name) != []
  {
    var name := BuildMapping(row, resolved)[0].1;
    assert name == ToStr(row[resolved["name"]]);
  }
}
