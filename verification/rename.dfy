/**
 Renaming of the spreadsheet's Russian column names to the fixed latin names
 the page template reads. The renaming is stated for any table that renames no
 name twice; the script's own table is one.
 */
module Rename {
  import opened Catalog

  /** Russian column name to the latin key the template uses. */
  const Replacements: map<string, string> := map[
    "Название" := "wine_name",
    "Сорт" := "grape",
    "Цена" := "price",
    "Картинка" := "img_url",
    "Категория" := "category",
    "Акция" := "special_offer"
  ]

  /** No new name is itself renamed, and no two old names share a new name. */
  ghost predicate ValidTable(table: map<string, string>) {
    && (forall s :: s in table ==> table[s] !in table)
    && (forall s, t :: s in table && t in table && s != t ==> table[s] != table[t])
  }

  lemma ReplacementsIsValid()
    ensures ValidTable(Replacements)
  {
    var names := {"Название", "Сорт", "Цена", "Картинка", "Категория", "Акция"};
    assert Replacements.Keys == names;
    forall s | s in Replacements
      ensures Replacements[s] !in Replacements
    {
      assert s in names;
    }
    forall s, t | s in Replacements && t in Replacements && s != t
      ensures Replacements[s] != Replacements[t]
    {
      assert s in names && t in names;
    }
  }

  /** The script's table renames exactly these six names to exactly these six. */
  lemma ReplacementsNames()
    ensures Replacements.Keys == {"Название", "Сорт", "Цена", "Картинка", "Категория", "Акция"}
    ensures Replacements.Values == {"wine_name", "grape", "price", "img_url", "category", "special_offer"}
  {
    var names := {"Название", "Сорт", "Цена", "Картинка", "Категория", "Акция"};
    var latin := {"wine_name", "grape", "price", "img_url", "category", "special_offer"};
    assert Replacements.Keys == names;
    forall t | t in latin ensures t in Replacements.Values {
      if t == "wine_name" { assert Replacements["Название"] == t; }
      else if t == "grape" { assert Replacements["Сорт"] == t; }
      else if t == "price" { assert Replacements["Цена"] == t; }
      else if t == "img_url" { assert Replacements["Картинка"] == t; }
      else if t == "category" { assert Replacements["Категория"] == t; }
      else { assert Replacements["Акция"] == t; }
    }
    forall t | t in Replacements.Values ensures t in latin {
      var s :| s in Replacements && Replacements[s] == t;
      assert s in names;
    }
  }

  /** The old name the table renames to `t`. */
  function SourceOf(table: map<string, string>, t: string): (s: string)
    requires ValidTable(table) && t in table.Values
    ensures s in table && table[s] == t
  {
    var s :| s in table && table[s] == t; s
  }

  /** New name to old name. */
  function Inverse(table: map<string, string>): (back: map<string, string>)
    requires ValidTable(table)
    ensures forall s :: s in table ==> table[s] in back && back[table[s]] == s
    ensures forall t :: t in back ==> back[t] in table && table[back[t]] == t
  {
    map t | t in table.Values :: SourceOf(table, t)
  }

  /** Whether `k` is a key of the row once the table keys among `done` are renamed. */
  predicate KeptOrMoved(table: map<string, string>, back: map<string, string>, row: Row, done: set<string>, k: string) {
    || (k in row && !(k in done && k in table))
    || (k in back && back[k] in row && back[k] in done)
  }

  /** The row once the table keys among `done` have been renamed: the state of the renaming loop. */
  function RenameKeys(table: map<string, string>, row: Row, done: set<string>): Row
    requires ValidTable(table)
  {
    var back := Inverse(table);
    map k | k in row.Keys + back.Keys && KeptOrMoved(table, back, row, done, k)
      :: if k in back && back[k] in row && back[k] in done then row[back[k]] else row[k]
  }

  /** The row with every key of the table renamed. */
  function Renamed(table: map<string, string>, row: Row): (r: Row)
    requires ValidTable(table)
    ensures forall s :: s in row && s in table ==> table[s] in r && r[table[s]] == row[s]
    ensures forall s :: s in table ==> s !in r
    ensures forall s :: s in table && s !in row && table[s] in row ==> table[s] in r && r[table[s]] == row[table[s]]
    ensures forall k :: k in row && k !in table && k !in table.Values ==> k in r && r[k] == row[k]
    ensures r.Keys == (row.Keys - table.Keys) + (set s | s in row.Keys * table.Keys :: table[s])
  {
    RenameKeys(table, row, row.Keys)
  }

  /** A table key not yet visited still holds its original value. */
  lemma RenameKeysUnvisited(table: map<string, string>, row: Row, done: set<string>, k: string)
    requires ValidTable(table)
    requires k in row && k !in done && k in table
    ensures k in RenameKeys(table, row, done) && RenameKeys(table, row, done)[k] == row[k]
  {
  }

  /** One step of the renaming loop: visiting key `k` renames it when the table has it. */
  lemma RenameKeysStep(table: map<string, string>, row: Row, done: set<string>, k: string)
    requires ValidTable(table)
    requires k in row && k !in done
    ensures RenameKeys(table, row, done + {k})
         == if k in table then RenameKeys(table, row, done)[table[k] := row[k]] - {k}
            else RenameKeys(table, row, done)
  {
    if k in table {
      RenameKeysMove(table, row, done, k);
    } else {
      RenameKeysSkip(table, row, done, k);
    }
  }

  /** Visiting a key the table renames moves its value to the new name. */
  lemma RenameKeysMove(table: map<string, string>, row: Row, done: set<string>, k: string)
    requires ValidTable(table)
    requires k in row && k !in done && k in table
    ensures RenameKeys(table, row, done + {k}) == RenameKeys(table, row, done)[table[k] := row[k]] - {k}
  {
    var back := Inverse(table);
    var before, after := RenameKeys(table, row, done), RenameKeys(table, row, done + {k});
    var expected := before[table[k] := row[k]] - {k};
    forall j | j in after
      ensures j in expected && after[j] == expected[j]
    {
      if j == table[k] {
        assert back[j] == k;
      }
    }
    forall j | j in expected
      ensures j in after
    {
    }
    assert after.Keys == expected.Keys;
  }

  /** Visiting a key the table does not rename changes nothing. */
  lemma RenameKeysSkip(table: map<string, string>, row: Row, done: set<string>, k: string)
    requires ValidTable(table)
    requires k in row && k !in done && k !in table
    ensures RenameKeys(table, row, done + {k}) == RenameKeys(table, row, done)
  {
    var before, after := RenameKeys(table, row, done), RenameKeys(table, row, done + {k});
    assert k !in Inverse(table).Values;
    assert after.Keys == before.Keys;
  }

  /**
   The renaming loop over one row: the keys are visited in any order (the row's
   own key order in the script), and each key found in the table is moved to its
   new name with the same value.
   */
  method RenameRow(table: map<string, string>, row: Row) returns (r: Row)
    requires ValidTable(table)
    ensures r == Renamed(table, row)
  {
    r := row;
    var done: set<string> := {};
    RenameKeysNothingDone(table, row);
    while done != row.Keys
      invariant done <= row.Keys
      invariant r == RenameKeys(table, row, done)
      decreases |row.Keys - done|
    {
      var k :| k in row.Keys - done;
      RenameKeysStep(table, row, done, k);
      if k in table {
        RenameKeysUnvisited(table, row, done, k);
        r := r[table[k] := r[k]] - {k};
      }
      done := done + {k};
    }
  }

  lemma RenameKeysNothingDone(table: map<string, string>, row: Row)
    requires ValidTable(table)
    ensures RenameKeys(table, row, {}) == row
  {
  }

  /** Renaming a row that holds no table key changes nothing. */
  lemma RenamedWithoutTableKeys(table: map<string, string>, row: Row)
    requires ValidTable(table)
    requires forall k :: k in row ==> k !in table
    ensures Renamed(table, row) == row
  {
    assert RenameKeys(table, row, row.Keys) == row;
  }

  /** Renaming twice is renaming once. */
  lemma RenamedIdempotent(table: map<string, string>, row: Row)
    requires ValidTable(table)
    ensures Renamed(table, Renamed(table, row)) == Renamed(table, row)
  {
    RenamedWithoutTableKeys(table, Renamed(table, row));
  }

  /** A row with exactly the table's old names comes out with exactly its new names. */
  lemma RenamedKeysOfFullRow(table: map<string, string>, row: Row)
    requires ValidTable(table)
    requires row.Keys == table.Keys
    ensures Renamed(table, row).Keys == table.Values
  {
  }

  /** Every row of a sequence renamed, in place. */
  function RenameAll(table: map<string, string>, rows: seq<Row>): (out: seq<Row>)
    requires ValidTable(table)
    ensures |out| == |rows|
    ensures forall i :: 0 <= i < |rows| ==> out[i] == Renamed(table, rows[i])
  {
    seq(|rows|, i requires 0 <= i < |rows| => Renamed(table, rows[i]))
  }

  lemma RenameAllIdempotent(table: map<string, string>, rows: seq<Row>)
    requires ValidTable(table)
    ensures RenameAll(table, RenameAll(table, rows)) == RenameAll(table, rows)
  {
    forall i | 0 <= i < |rows|
      ensures RenameAll(table, RenameAll(table, rows))[i] == RenameAll(table, rows)[i]
    {
      RenamedIdempotent(table, rows[i]);
    }
  }

  /** The loop over the rows of one category, renaming each row. */
  method RenameWines(table: map<string, string>, wines: seq<Row>) returns (renamed: seq<Row>)
    requires ValidTable(table)
    ensures renamed == RenameAll(table, wines)
  {
    renamed := [];
    for i := 0 to |wines|
      invariant |renamed| == i
      invariant forall t :: 0 <= t < i ==> renamed[t] == Renamed(table, wines[t])
    {
      var wine := RenameRow(table, wines[i]);
      renamed := renamed + [wine];
    }
  }

  /**
   The renaming pass over the grouped rows: for every category, every row of its
   entry is renamed. Looking up a category creates an empty entry when missing,
   and a category listed twice has its rows renamed twice, which changes nothing.
   */
  method RenameBuckets(table: map<string, string>, categories: seq<Value>, byCategory: map<Value, seq<Row>>)
    returns (updated: map<Value, seq<Row>>)
    requires ValidTable(table)
    ensures updated.Keys == byCategory.Keys + set c | c in categories
    ensures forall c :: c in updated && c in categories ==> updated[c] == RenameAll(table, Entry(byCategory, c))
    ensures forall c :: c in updated && c !in categories ==> updated[c] == byCategory[c]
  {
    updated := byCategory;
    for k := 0 to |categories|
      invariant RenamedUpTo(table, categories[..k], byCategory, updated)
    {
      var category := categories[k];
      var wines := Entry(updated, category);
      var renamed := RenameWines(table, wines);
      RenamedUpToStep(table, categories[..k], category, byCategory, updated, renamed);
      updated := updated[category := renamed];
      assert categories[..k + 1] == categories[..k] + [category];
    }
    assert categories[..|categories|] == categories;
  }

  /** The state of the renaming pass once the categories `seen` have been visited. */
  ghost predicate RenamedUpTo(table: map<string, string>, seen: seq<Value>, byCategory: map<Value, seq<Row>>, updated: map<Value, seq<Row>>)
    requires ValidTable(table)
  {
    && updated.Keys == byCategory.Keys + (set c | c in seen)
    && (forall c :: c in updated && c in seen ==> updated[c] == RenameAll(table, Entry(byCategory, c)))
    && (forall c :: c in updated && c !in seen ==> updated[c] == byCategory[c])
  }

  lemma RenamedUpToStep(table: map<string, string>, seen: seq<Value>, category: Value,
                        byCategory: map<Value, seq<Row>>, updated: map<Value, seq<Row>>, renamed: seq<Row>)
    requires ValidTable(table)
    requires RenamedUpTo(table, seen, byCategory, updated)
    requires renamed == RenameAll(table, Entry(updated, category))
    ensures RenamedUpTo(table, seen + [category], byCategory, updated[category := renamed])
  {
    var original := Entry(byCategory, category);
    if category in seen {
      RenameAllIdempotent(table, original);
    }
    assert renamed == RenameAll(table, original);
  }

  /** Looking a category up in the grouped rows: its entry, or a fresh empty one. */
  function Entry(byCategory: map<Value, seq<Row>>, c: Value): seq<Row> {
    if c in byCategory then byCategory[c] else []
  }

}
