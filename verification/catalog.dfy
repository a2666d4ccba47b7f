/**
 Grouping of the catalog rows by category. The rows are the records of the
 spreadsheet; the category of a row is its value in the first column (`header`).
 */
module Catalog {
  import opened Seqs

  /** A spreadsheet cell as the reader hands it over: text (blanks read as "") or a whole number. */
  datatype Value = Text(text: string) | Number(number: int)

  /** One spreadsheet record: column name to cell value. */
  type Row = map<string, Value>

  /** Every row carries the category column, as records of one table all do. */
  predicate HasColumn(rows: seq<Row>, header: string) {
    forall r :: r in rows ==> header in r
  }

  /** The category column, top to bottom. */
  function Column(rows: seq<Row>, header: string): (col: seq<Value>)
    requires HasColumn(rows, header)
    ensures |col| == |rows|
    ensures forall i :: 0 <= i < |rows| ==> col[i] == rows[i][header]
  {
    seq(|rows|, i requires 0 <= i < |rows| => rows[i][header])
  }

  /** Drops every repeated element, keeping first occurrences in their original order. */
  function Dedup<T(==,!new)>(s: seq<T>): (r: seq<T>)
    ensures NoDuplicates(r)
    ensures forall x :: x in r <==> x in s
    ensures forall i, j :: 0 <= i < j < |r| ==> IndexOf(s, r[i]) < IndexOf(s, r[j])
  {
    if |s| == 0 then []
    else
      var init, last := s[..|s| - 1], s[|s| - 1];
      assert s == init + [last];
      var d := Dedup(init);
      DedupStep(init, last, d);
      if last in d then d else d + [last]
  }

  lemma DedupStep<T>(init: seq<T>, last: T, d: seq<T>)
    requires forall x :: x in d <==> x in init
    requires forall i, j :: 0 <= i < j < |d| ==> IndexOf(init, d[i]) < IndexOf(init, d[j])
    ensures forall i :: 0 <= i < |d| ==> IndexOf(init + [last], d[i]) == IndexOf(init, d[i])
    ensures last !in init ==> IndexOf(init + [last], last) == |init|
  {
    forall i | 0 <= i < |d|
      ensures IndexOf(init + [last], d[i]) == IndexOf(init, d[i])
    {
      IndexOfAppend(init, last, d[i]);
    }
    if last !in init {
      IndexOfAppendNew(init, last);
    }
  }

  /**
   The three properties of `Dedup` pin its result down: any repeat-free list of
   exactly the elements of `s`, in order of first appearance, is `Dedup(s)`.
   */
  lemma DedupUnique<T(!new)>(s: seq<T>, r: seq<T>)
    requires NoDuplicates(r)
    requires forall x :: x in r <==> x in s
    requires forall i, j :: 0 <= i < j < |r| ==> IndexOf(s, r[i]) < IndexOf(s, r[j])
    ensures r == Dedup(s)
  {
    SameOrderedElements(s, r, Dedup(s));
  }

  /** Two repeat-free lists with the same elements, both ordered by first appearance in `s`, are equal. */
  lemma {:induction false} SameOrderedElements<T>(s: seq<T>, a: seq<T>, b: seq<T>)
    requires NoDuplicates(a) && NoDuplicates(b)
    requires forall x :: x in a <==> x in b
    requires forall i, j :: 0 <= i < j < |a| ==> IndexOf(s, a[i]) < IndexOf(s, a[j])
    requires forall i, j :: 0 <= i < j < |b| ==> IndexOf(s, b[i]) < IndexOf(s, b[j])
    ensures a == b
    decreases |a|
  {
    if |a| == 0 {
      NonEmptyHasHead(b);
    } else {
      assert a[0] in b;
      assert b[0] in b;
      SameFirst(s, a, b);
      SameRest(a, b);
      SameOrderedElements(s, a[1..], b[1..]);
      assert a == [a[0]] + a[1..] && b == [b[0]] + b[1..];
    }
  }

  /**
   Stated unconditionally so that callers need no branch on `|b| > 0`, which
   would be an impossible branch wherever `b` is known to be empty.
   */
  lemma NonEmptyHasHead<T>(b: seq<T>)
    ensures |b| > 0 ==> b[0] in b
  {
  }

  /** Both lists start with the element that appears first in `s`. */
  lemma SameFirst<T>(s: seq<T>, a: seq<T>, b: seq<T>)
    requires |a| > 0 && |b| > 0
    requires forall x :: x in a <==> x in b
    requires forall i, j :: 0 <= i < j < |a| ==> IndexOf(s, a[i]) < IndexOf(s, a[j])
    requires forall i, j :: 0 <= i < j < |b| ==> IndexOf(s, b[i]) < IndexOf(s, b[j])
    ensures a[0] == b[0]
  {
    assert a[0] in b && b[0] in a;
    var i :| 0 <= i < |a| && a[i] == b[0];
    var j :| 0 <= j < |b| && b[j] == a[0];
    assert i == 0;
  }

  /** With equal heads, the tails of two repeat-free lists with the same elements have the same elements. */
  lemma SameRest<T>(a: seq<T>, b: seq<T>)
    requires |a| > 0 && |b| > 0 && a[0] == b[0]
    requires NoDuplicates(a) && NoDuplicates(b)
    requires forall x :: x in a <==> x in b
    ensures forall x :: x in a[1..] <==> x in b[1..]
  {
    forall x | x in a[1..]
      ensures x in b[1..]
    {
      var i :| 1 <= i < |a| && a[i] == x;
      assert x in b;
      var k :| 0 <= k < |b| && b[k] == x;
      assert b[1..][k - 1] == x;
    }
    forall x | x in b[1..]
      ensures x in a[1..]
    {
      var i :| 1 <= i < |b| && b[i] == x;
      assert x in a;
      var k :| 0 <= k < |a| && a[k] == x;
      assert a[1..][k - 1] == x;
    }
  }

  /** The distinct categories in order of first appearance. */
  function Categories(rows: seq<Row>, header: string): (cats: seq<Value>)
    requires HasColumn(rows, header)
    ensures NoDuplicates(cats)
    ensures forall c :: c in cats <==> exists r :: r in rows && r[header] == c
    ensures forall i, j :: 0 <= i < j < |cats| ==>
              IndexOf(Column(rows, header), cats[i]) < IndexOf(Column(rows, header), cats[j])
  {
    var col := Column(rows, header);
    assert forall c :: c in col <==> exists r :: r in rows && r[header] == c by {
      forall c | c in col ensures exists r :: r in rows && r[header] == c {
        var i :| 0 <= i < |col| && col[i] == c;
        assert rows[i] in rows;
      }
      forall c | exists r :: r in rows && r[header] == c ensures c in col {
        var r :| r in rows && r[header] == c;
        var i :| 0 <= i < |rows| && rows[i] == r;
        assert col[i] == c;
      }
    }
    Dedup(col)
  }

  /** The rows of one category, in their original order. */
  function Bucket(rows: seq<Row>, header: string, c: Value): (b: seq<Row>)
    requires HasColumn(rows, header)
    ensures |b| <= |rows|
    ensures forall r :: r in b <==> r in rows && r[header] == c
  {
    if |rows| == 0 then []
    else
      var init, last := rows[..|rows| - 1], rows[|rows| - 1];
      assert rows == init + [last];
      Bucket(init, header, c) + (if last[header] == c then [last] else [])
  }

  /** A bucket holds each row of its category as many times as the rows do, and no other row. */
  lemma {:induction false} BucketCounts(rows: seq<Row>, header: string, c: Value)
    requires HasColumn(rows, header)
    ensures forall r :: r in rows ==>
              multiset(Bucket(rows, header, c))[r] == if r[header] == c then multiset(rows)[r] else 0
    decreases |rows|
  {
    if |rows| > 0 {
      var init, last := rows[..|rows| - 1], rows[|rows| - 1];
      assert rows == init + [last];
      BucketCounts(init, header, c);
      var tail := if last[header] == c then [last] else [];
      assert Bucket(rows, header, c) == Bucket(init, header, c) + tail;
      assert multiset(rows) == multiset(init) + multiset{last};
      assert multiset(Bucket(rows, header, c)) == multiset(Bucket(init, header, c)) + multiset(tail);
      forall r | r in rows
        ensures multiset(Bucket(rows, header, c))[r] == if r[header] == c then multiset(rows)[r] else 0
      {
        if r !in init {
          assert r !in Bucket(init, header, c);
        }
      }
    }
  }

  /** Splitting the rows splits every bucket the same way: buckets keep row order. */
  lemma {:induction false} BucketAppend(a: seq<Row>, b: seq<Row>, header: string, c: Value)
    requires HasColumn(a, header) && HasColumn(b, header)
    ensures HasColumn(a + b, header)
    ensures Bucket(a + b, header, c) == Bucket(a, header, c) + Bucket(b, header, c)
    decreases |b|
  {
    if |b| > 0 {
      var b', x := b[..|b| - 1], b[|b| - 1];
      assert (a + b)[..|a + b| - 1] == a + b';
      assert (a + b)[|a + b| - 1] == x;
      BucketAppend(a, b', header, c);
      assert Bucket(a + b, header, c) == Bucket(a + b', header, c) + (if x[header] == c then [x] else []);
      assert Bucket(b, header, c) == Bucket(b', header, c) + (if x[header] == c then [x] else []);
    } else {
      assert a + b == a;
    }
  }

  /**
   The grouping loop: for every category, scan all rows, touching the category's
   entry before testing the row, and append the rows of that category. With no
   rows the inner loop never runs and no entry is created.
   */
  method GroupByCategory(categories: seq<Value>, rows: seq<Row>, header: string)
    returns (byCategory: map<Value, seq<Row>>)
    requires HasColumn(rows, header)
    requires NoDuplicates(categories)
    ensures byCategory.Keys == if |rows| == 0 then {} else set c | c in categories
    ensures forall c :: c in byCategory ==> byCategory[c] == Bucket(rows, header, c)
  {
    byCategory := map[];
    for k := 0 to |categories|
      invariant byCategory.Keys == if |rows| == 0 then {} else set c | c in categories[..k]
      invariant forall c :: c in byCategory ==> byCategory[c] == Bucket(rows, header, c)
    {
      assert categories[k] !in categories[..k];
      byCategory := ScanRows(byCategory, categories[k], rows, header);
      assert categories[..k + 1] == categories[..k] + [categories[k]];
    }
    assert categories[..|categories|] == categories;
  }

  /** The inner loop of the grouping: one pass over the rows for one category. */
  method ScanRows(byCategory: map<Value, seq<Row>>, category: Value, rows: seq<Row>, header: string)
    returns (updated: map<Value, seq<Row>>)
    requires HasColumn(rows, header)
    requires category !in byCategory
    ensures updated == if |rows| == 0 then byCategory
                       else byCategory[category := Bucket(rows, header, category)]
  {
    updated := byCategory;
    for j := 0 to |rows|
      invariant updated == if j == 0 then byCategory
                           else byCategory[category := Bucket(rows[..j], header, category)]
    {
      // The entry is touched (created empty if missing) before the row is tested;
      // `temporary` is that entry's list, so appending to it updates the entry.
      var temporary := if category in updated then updated[category] else [];
      assert temporary == Bucket(rows[..j], header, category);
      assert rows[..j + 1][..j] == rows[..j];
      assert Bucket(rows[..j + 1], header, category)
          == Bucket(rows[..j], header, category) + (if rows[j][header] == category then [rows[j]] else []);
      if rows[j][header] == category {
        temporary := temporary + [rows[j]];
      }
      assert temporary == Bucket(rows[..j + 1], header, category);
      updated := updated[category := temporary];
    }
    assert rows[..|rows|] == rows;
  }

  /** The buckets of `cats`, one after the other: the page's listing order. */
  function Regrouped(cats: seq<Value>, rows: seq<Row>, header: string): seq<Row>
    requires HasColumn(rows, header)
  {
    if |cats| == 0 then [] else Bucket(rows, header, cats[0]) + Regrouped(cats[1..], rows, header)
  }

  lemma {:induction false} RegroupedOfNoRows(cats: seq<Value>, header: string)
    ensures Regrouped(cats, [], header) == []
  {
    if |cats| > 0 {
      RegroupedOfNoRows(cats[1..], header);
    }
  }

  /** One more row adds exactly one element to the listing when its category is listed once. */
  lemma {:induction false} RegroupedAppendRow(cats: seq<Value>, rows: seq<Row>, x: Row, header: string)
    requires HasColumn(rows, header) && header in x
    requires NoDuplicates(cats)
    ensures HasColumn(rows + [x], header)
    ensures multiset(Regrouped(cats, rows + [x], header))
         == multiset(Regrouped(cats, rows, header)) + (if x[header] in cats then multiset{x} else multiset{})
  {
    assert HasColumn(rows + [x], header);
    if |cats| > 0 {
      var c, rest := cats[0], cats[1..];
      assert NoDuplicates(rest) by {
        forall i, j | 0 <= i < j < |rest| ensures rest[i] != rest[j] {
          assert rest[i] == cats[i + 1] && rest[j] == cats[j + 1];
        }
      }
      RegroupedAppendRow(rest, rows, x, header);
      BucketAppendRow(rows, x, header, c);
      var mB := multiset(Bucket(rows, header, c));
      var mR := multiset(Regrouped(rest, rows, header));
      var mR' := multiset(Regrouped(rest, rows + [x], header));
      assert multiset(Regrouped(cats, rows, header)) == mB + mR;
      if x[header] == c {
        assert x[header] !in rest;
        assert mR' == mR;
        assert multiset(Regrouped(cats, rows + [x], header)) == mB + multiset{x} + mR';
      } else {
        assert x[header] in cats <==> x[header] in rest;
        assert multiset(Regrouped(cats, rows + [x], header)) == mB + mR';
      }
    }
  }

  /** The bucket of one more row. */
  lemma BucketAppendRow(rows: seq<Row>, x: Row, header: string, c: Value)
    requires HasColumn(rows, header) && header in x
    ensures HasColumn(rows + [x], header)
    ensures Bucket(rows + [x], header, c) == Bucket(rows, header, c) + (if x[header] == c then [x] else [])
  {
    assert HasColumn(rows + [x], header);
    assert (rows + [x])[..|rows|] == rows;
  }

  /**
   Grouping is a partition: listing the buckets of a duplicate-free list of
   categories that covers every row yields every row exactly as often as it
   occurs, so the bucket sizes add up to the number of rows.
   */
  lemma {:induction false} RegroupedIsPermutation(cats: seq<Value>, rows: seq<Row>, header: string)
    requires HasColumn(rows, header)
    requires NoDuplicates(cats)
    requires forall r :: r in rows ==> r[header] in cats
    ensures multiset(Regrouped(cats, rows, header)) == multiset(rows)
    ensures |Regrouped(cats, rows, header)| == |rows|
  {
    if |rows| == 0 {
      RegroupedOfNoRows(cats, header);
    } else {
      var init, x := rows[..|rows| - 1], rows[|rows| - 1];
      assert rows == init + [x];
      RegroupedIsPermutation(cats, init, header);
      RegroupedAppendRow(cats, init, x, header);
    }
    assert |multiset(Regrouped(cats, rows, header))| == |Regrouped(cats, rows, header)|;
  }

  /** The grouping of the page is a partition of the rows. */
  lemma GroupingIsPartition(rows: seq<Row>, header: string)
    requires HasColumn(rows, header)
    ensures var cats := Categories(rows, header);
            && multiset(Regrouped(cats, rows, header)) == multiset(rows)
            && |Regrouped(cats, rows, header)| == |rows|
            && forall r, c :: r in rows && c in cats ==> (r in Bucket(rows, header, c) <==> c == r[header])
  {
    RegroupedIsPermutation(Categories(rows, header), rows, header);
  }

}
