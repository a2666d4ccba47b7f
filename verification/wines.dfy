/**
 The catalog side of the page generator: from the spreadsheet's records to the
 category list and the renamed rows of each category that the page template reads.
 */
module Wines {
  import opened Seqs
  import opened Catalog
  import opened Rename

  /** The rows of the listed categories, category after category: the buckets in category order. */
  function Listing(categories: seq<Value>, byCategory: map<Value, seq<Row>>): seq<Row> {
    if |categories| == 0 then []
    else
      (if categories[0] in byCategory then byCategory[categories[0]] else [])
      + Listing(categories[1..], byCategory)
  }

  /** A row as the template sees it: the script's table applied. */
  function PageRow(row: Row): Row {
    ReplacementsIsValid();
    Renamed(Replacements, row)
  }

  function PageRows(rows: seq<Row>): (out: seq<Row>)
    ensures |out| == |rows|
    ensures forall i :: 0 <= i < |rows| ==> out[i] == PageRow(rows[i])
  {
    ReplacementsIsValid();
    RenameAll(Replacements, rows)
  }

  /** A record with exactly the six Russian columns reaches the template with exactly the six latin keys. */
  lemma PageRowKeys(row: Row)
    requires row.Keys == {"Название", "Сорт", "Цена", "Картинка", "Категория", "Акция"}
    ensures PageRow(row).Keys == {"wine_name", "grape", "price", "img_url", "category", "special_offer"}
  {
    ReplacementsIsValid();
    ReplacementsNames();
    RenamedKeysOfFullRow(Replacements, row);
  }

  /**
   The records read, grouped by their first column and renamed: the categories
   in order of first appearance, and for each category its rows in their
   original order with the latin keys.
   */
  method GetWines(rows: seq<Row>, header: string) returns (byCategory: map<Value, seq<Row>>, categories: seq<Value>)
    requires HasColumn(rows, header)
    ensures NoDuplicates(categories)
    ensures forall c :: c in categories <==> exists r :: r in rows && r[header] == c
    ensures forall i, j :: 0 <= i < j < |categories| ==>
              IndexOf(Column(rows, header), categories[i]) < IndexOf(Column(rows, header), categories[j])
    ensures byCategory.Keys == set c | c in categories
    ensures forall c :: c in byCategory ==> byCategory[c] == PageRows(Bucket(rows, header, c))
    ensures forall r :: r in rows ==> r[header] in byCategory && PageRow(r) in byCategory[r[header]]
    ensures multiset(Listing(categories, byCategory)) == multiset(PageRows(rows))
    ensures |Listing(categories, byCategory)| == |rows|
  {
    ReplacementsIsValid();
    categories := Categories(rows, header);
    var grouped := GroupByCategory(categories, rows, header);
    byCategory := RenameBuckets(Replacements, categories, grouped);
    GetWinesProperties(rows, header, categories, byCategory);
  }

  /** What the grouped and renamed buckets say about the rows and the page's listing. */
  lemma GetWinesProperties(rows: seq<Row>, header: string, categories: seq<Value>, byCategory: map<Value, seq<Row>>)
    requires HasColumn(rows, header)
    requires categories == Categories(rows, header)
    requires byCategory.Keys == set c | c in categories
    requires forall c :: c in byCategory ==> byCategory[c] == PageRows(Bucket(rows, header, c))
    ensures forall r :: r in rows ==> r[header] in byCategory && PageRow(r) in byCategory[r[header]]
    ensures multiset(Listing(categories, byCategory)) == multiset(PageRows(rows))
    ensures |Listing(categories, byCategory)| == |rows|
  {
    forall r | r in rows
      ensures r[header] in byCategory && PageRow(r) in byCategory[r[header]]
    {
      var b := Bucket(rows, header, r[header]);
      assert r in b;
      var i :| 0 <= i < |b| && b[i] == r;
      assert PageRows(b)[i] == PageRow(r);
    }
    ListingOfGroups(categories, byCategory, rows, header);
    RegroupedIsPermutation(categories, rows, header);
    PageRowsPermutation(Regrouped(categories, rows, header), rows);
  }

  /** Listing the renamed buckets lists the renamed rows of the buckets. */
  lemma {:induction false} ListingOfGroups(categories: seq<Value>, byCategory: map<Value, seq<Row>>, rows: seq<Row>, header: string)
    requires HasColumn(rows, header)
    requires forall c :: c in categories ==> c in byCategory && byCategory[c] == PageRows(Bucket(rows, header, c))
    ensures Listing(categories, byCategory) == PageRows(Regrouped(categories, rows, header))
  {
    if |categories| > 0 {
      ListingOfGroups(categories[1..], byCategory, rows, header);
      PageRowsAppend(Bucket(rows, header, categories[0]), Regrouped(categories[1..], rows, header));
    }
  }

  lemma PageRowsAppend(a: seq<Row>, b: seq<Row>)
    ensures PageRows(a + b) == PageRows(a) + PageRows(b)
  {
    assert |PageRows(a + b)| == |PageRows(a) + PageRows(b)|;
    forall i | 0 <= i < |a + b|
      ensures PageRows(a + b)[i] == (PageRows(a) + PageRows(b))[i]
    {
      if i >= |a| {
        assert (a + b)[i] == b[i - |a|];
      }
    }
  }

  /** Renaming every row of two rearrangements of the same rows gives rearrangements. */
  lemma {:induction false} PageRowsPermutation(a: seq<Row>, b: seq<Row>)
    requires multiset(a) == multiset(b)
    ensures multiset(PageRows(a)) == multiset(PageRows(b))
    decreases |a|
  {
    if |a| == 0 {
      assert |b| == |multiset(b)| == 0;
    } else {
      var x := a[0];
      assert x in multiset(b);
      var i :| 0 <= i < |b| && b[i] == x;
      var b' := b[..i] + b[i + 1..];
      assert b == b[..i] + [x] + b[i + 1..];
      assert a == [x] + a[1..];
      assert multiset(b) == multiset(b[..i]) + multiset{x} + multiset(b[i + 1..]);
      assert multiset(a) == multiset{x} + multiset(a[1..]);
      assert multiset(b') == multiset(b[..i]) + multiset(b[i + 1..]);
      assert multiset(b') == multiset(b) - multiset{x};
      assert multiset(a[1..]) == multiset(a) - multiset{x};
      PageRowsPermutation(a[1..], b');
      PageRowsAppend([x], a[1..]);
      PageRowsAppend(b[..i] + [x], b[i + 1..]);
      PageRowsAppend(b[..i], [x]);
      PageRowsAppend(b[..i], b[i + 1..]);
    }
  }

}
